# dtorrent: the storage and request machinery, modelled and proved

dtorrent is a BitTorrent client. Between the network and the disk it keeps mutable, linked structures, and each of
them has a simple meaning that it must agree with. This project states those meanings and proves, for all inputs and
all runs, that the code keeps to them. The code works by changing things step by step, and so does the model: nodes
are objects with links that are changed in place, counters and cursors are fields, and loops have invariants. Every
method is proved against a value that says what it means, and lemmas and whole-run theorems are about those values.

| part | files | what it means |
|---|---|---|
| write-back cache | `CacheEntries`, `SliceCache` | one flat array of bytes: the cache laid over the disk |
| staged files | `FileLayout`, `FileWrites`, `FileMerges`, `FileReads`, `FileStore`, `FileRuns`, `FileExamples` | one partial flat array over real and staging files |
| request queues | `QueueSlices`, `SliceGrid`, `SliceShuffle`, `RequestQueue`, `QueueBounds`, `PeerEvents`, `Peer`, `SwarmScenes`, `Swarm`, `Overrun` | rows of slices, of each of which a prefix has been sent; the peer's counter is its length |
| piece sets | `Bits`, `Bitfield`, `Sets` | a finite set of piece numbers |
| byte accounting | `Pieces`, `Accounting`, `FileFilter` | sums of piece lengths over such sets |
| SHA-1 | `Sha1`, `Sha1Known`, `Sha1Stream` | the digest of FIPS PUB 180-1 |
| bencode | `BencodeText`, `BencodeValues`, `Bencode`, `BencodeQuery`, `BencodePrint`, `BencodePath`, `BencodeRoundTrip` | trees, and their one text form (BEP 3, section "bencoding") |
| framing | `Bytes`, `Framing`, `BufIo`, `Stream` | a row of messages in a stream of bytes (BEP 3, section "peer messages") |
| unchoking | `Unchoke` | the best candidates of a total preorder |

`Sequences`, `Sets` and `Options` hold general facts.

## Main results

- **Cache.** `SliceCache.Cache.Run`: whatever is written, read, prefetched, cleaned, flushed or resized, in any
  order, as long as no disk write fails the flat array is what the writes alone make of it and every read returns its
  bytes. `CoherentIffOverlay` says that the flat array is the overlay of cache and disk. `Valid` is the dual-list
  invariant: both views hold the same nodes, each piece list is ascending and disjoint, the size counter is the sum of
  the lengths. A read or prefetch of an uncached slice that is short enough makes it the newest entry, one of a cached
  range renews it exactly if it is a prefetch, and while there is room nothing is dropped and the whole range is covered
  afterwards (`ReadSlice`). `CacheClean` ends although flushing reorders the list it scans; it drops no dirty entry, the
  clean ones oldest first, and no more of them than the room takes.
- **Staged files.** `FileRuns.Run`: from empty files on, in every run of writes, reads and merges, over any bytes and
  with disk failures anywhere, new staging files that cannot be written included, the files show after every step the
  bytes that have been saved and nothing where nothing was written. A read of saved bytes returns just those, but for
  exactly the reads that go on past the end of a real file that has passed the staging file behind it. A run ends early
  only with a write that goes astray, and `WriteRight` says which do. Nothing of that happens, and every write is carried
  out, as long as no write meets staged bytes and no new staging file is left empty (`CalmRun`), so for writes that have
  no byte in common (`ApartRun`). `Write` is the loop of the code on linked nodes, and ends with what `WriteAt`, a
  function on values, makes of the files. Merges leave alone what is shown; one fails only on a disk that does not take
  all that is staged, and otherwise merges exactly if there is something to merge, and all of it if all is asked for
  (`MergesRight`).
- **Requests.** `Swarm.Run`: in every run of any number of peers, gaining and losing interest, choking and unchoking,
  and for any sizes, `m_req_out` is the number of slices sent until the counter is reset, so the cursor repair `FixSend`
  never changes anything, and no queue is longer than `Peak`. From one scene to the next happens what `Happened` says of
  the event: which slices leave a queue, come into it and go to the pending ones, how many are sent, and when all are given
  up. Then nothing is lost (`GivenKeeps`), while more is asked for nothing moves (`AskingKeeps`), and after a slice or a piece
  has been received nobody asks for it (`Fits`). For the sizes that the configuration allows, a counter that
  is right is reset in some run exactly if they are not `Safe`: then `Overrun` is such a run, and otherwise `Swarm.Run`
  excludes it. `UnsafeIff` spells those sizes out. A queue outgrows `ReqQueueLength` exactly under the condition of
  `LongIff`: `Fill` is a run that gets there, and no run gets beyond `Peak`. `SendRequest` and `RequestPiece` call each
  other and end.
- **Sets and bytes.** Every operation of the bit field is the set operation it stands for, among them the inversion
  that works with a stale count. The bytes left are the sizes of the missing pieces, in every order of completing and
  checking, and `GetNeedBytes` is the size of those that are wanted.
- **SHA-1.** The circular 16-word schedule with renamed registers is the 80-word schedule with shifting registers,
  and the digest does not depend on how the message is cut up. The four constants are the square roots they are meant to
  be (`Roots`), and the digest of "abc" is the one in the standard, worked out round by round (`KnownAnswer`).
- **Bencode.** The decoder finds exactly the trees of the grammar; what is printed is what is decoded, whatever
  follows it; a query with a key list finds what walking down the value finds. `List2Path` says exactly which lists of
  names are written past the end of the buffer.
- **Framing.** Whatever arrives in whatever portions, what has been delivered is a function of the bytes that have
  come, and no byte that the network gave is lost (`Stream.Run`); a turn tells of a bad message exactly if one is refused
  or garbage comes first (`Turn`); and what one side says is what the other delivers (`EndToEnd`).
- **Unchoking.** `SelectUnchoke` is a total preorder: by rate and ratio among those who have sent while downloading
  (`Downloading`), by ratio among those who have sent more than they got while seeding (`Seeding`), otherwise by pieces
  (`ByPieces`). The fold over the peers leaves nobody outside the ranked slots who is preferred to anybody inside;
  afterwards exactly the peers in the slots may download.

## Where the code differs from what it says

- `FixSend` (btrequest.cpp:59-102) is a failsafe for a cursor that is wrong. It never is.
- The checks `m_req_out > MaxReqQueueLength()` with the message "underflow, resetting" take a count for wrapped that
  need not be: with slices of 1024 bytes and two pieces of 1500 bytes (`UnsafeSizes`) two requests are outstanding, the
  limit is one, and the counter is set to zero (`Overrun`). For sizes that can be configured this happens exactly if a
  slice has 1024 bytes, one to four slices go into a piece whole, the first piece has one slice more than that, and the
  torrent has at least twice as many (`UnsafeIff`).
- The slice size is checked to be at most `MIN_SLICE_SIZE`, where at least is meant (btconfig.cpp:995): only 1024 and the
  default of 16384 can be had (`ConfiguredIff`). The assignment that is to make slices no longer than pieces
  (btcontent.cpp:363-364) goes through the same check. With pieces of 8192 bytes and the default it changes nothing, and
  then there is never room for a piece, so nothing is ever requested (`NothingFits`, `RoomIff`).
- A slice that could not be saved is to be requested again unless the flush failed (peer.cpp:833-843). A write fails only
  when a flush does (`WriteSlice`), so that branch is not reached; the model has it all the same.
- `Send_Keepalive` (btstream.cpp:145-148) sends four bytes of an empty string literal, of which there is one. It is a
  keepalive exactly if the next three bytes in memory are zero (`KeepaliveIff`).
- `CancelPiece` (peer.cpp:661-695) sends its first cancel message with a piece number that has not been set, exactly if
  the first slice of the piece has been sent. `Trusted` is a run from a new peer to such a message. The queue and the
  counter are right all the same.
- A new staging file is put into the list before it is written (btfiles.cpp:268-310). When that fails, it stays there
  empty. The real file before it passes it as it grows, and then reads that cross the end of the real file go wrong; no
  merge takes the staging file out once the real one is complete. A write that meets bytes already staged does the same.
  `Misread` has both: files of four bytes and one, the second written, then the byte at 2, staged or not, then the first
  file, and the bytes at 3 and 4, both saved, cannot be read together.
- A write that fills a real file with two passed staging files behind it, and goes on, takes the room in the first of them
  to be more than any length, because the second starts before the place to write at and the difference is unsigned
  (btfiles.cpp:322-327). It puts the rest of its bytes there, beyond the start of the next real file. Three writes are
  enough (`GoesAstray`).
- decode_list2path (bencode.cpp:258-264) takes the names off the room that is left, and not what separates them. Two names
  whose path is as long as the buffer store the end mark past it (`OverrunsTwo`): 500 and 523 characters do for the one
  buffer there is, of MAXPATHLEN characters (`OverrunsPath`).

## What the model takes as given

- Buffers and the caller's data are byte sequences, disks and files are byte sequences; a disk write may fail at any
  time where the contract says so, and may then leave anything in its range. Reading from the disk succeeds, and so
  does opening a file to read it. Files end before 2^63, so that a difference that wraps is more than any length.
- How many disk writes of a merge go well, how many messages a connection still takes, how many bytes a socket takes and
  has to give, with how its end shows, and the random bits of the unchoking are parameters, so that what is done is a
  function of them.
- Memory allocation succeeds. Clocks, other random bits, whether a peer has anything that is wanted (seeding and pausing
  included), the choice of a piece among those allowed, and the outcome of a hash check are nondeterministic.
- Pieces are not empty. For the request queues fewer than 2^31 slices go into a piece, or none, as in all sizes that can
  be configured; the 32-bit arithmetic of the queue lengths is modelled as it is. The slice size does not change during
  a run.
- `Swarm.Run` excludes resets for runs in which what arrives can be saved or no queue outgrows the limit; see above for
  why the code never asks again for what could not be saved.

## Model

| member | source | states |
|---|---|---|
| `SliceCache.Cache.Run` | btcontent.cpp:528-1082 | any run of reads, prefetches, writes, cleans, preparations, flushes and resizes without a failed write leaves the flat array that the writes alone make, and its reads return that array's bytes |
| `SliceCache.Cache.Do` | btcontent.cpp:528-1082 | each operation of a run does to the cache what it is for: reads and writes bring in, cleaning and preparing make room, flushing writes back |
| `SliceCache.Cache.ReadSlice` | btcontent.cpp:528-594 | returns exactly the bytes of the flat array, cached or not, and changes none of them; a cached range stays as it is, renewed if it is prefetched; an uncached one that is short enough becomes the newest entry, clean; with room for the range nothing is dropped and all of it is covered afterwards |
| `SliceCache.Cache.WriteSlice` | btcontent.cpp:952-1005 | changes the flat array on the slice's range only, to the new bytes if it succeeds; the end of a short one is in the newest entry then, dirty; it fails only if a disk write fails, and then the flush is marked as failed |
| `SliceCache.Cache.CacheIO` | btcontent.cpp:1008-1082 | an uncached range becomes the newest entry or goes past the cache; without a failed write the cache ends within its size, and that within the configured limit |
| `SliceCache.Cache.CacheClean` | btcontent.cpp:603-651 | ends; drops no dirty entry; makes the room, or empties the cache, or leaves only dirty entries after a failed write; what it drops goes oldest first, and without the last of it there would not have been room |
| `SliceCache.Cache.CachePrep` | btcontent.cpp:916-950 | while writes succeed nothing dirty is lost; the piece itself is spared; nothing goes without need, and the oldest first if nothing is dirty; tells rightly whether there is something to prefetch |
| `SliceCache.Cache.FlushPiece` | btcontent.cpp:788-821 | without failure nothing of the piece stays dirty; a piece that is complete becomes the newest part of the age list, with its order reported as changed |
| `SliceCache.Cache.FlushEntry` | btcontent.cpp:823-870 | writing back keeps the flat array; an entry stays dirty exactly when the write has failed or is not attempted |
| `SliceCache.Cache.FlushCache` | btcontent.cpp:777-785 | without failure nothing is dirty any more, and the disk is the flat array |
| `SliceCache.Cache.Uncache` | btcontent.cpp:872-889 | drops a piece: its bytes are again those on disk, all other lists and bytes are as before |
| `SliceCache.Cache.Configure` | btcontent.cpp:654-762 | a new size, whichever it is, keeps the flat array; without failure the cache is within it, or has grown to what is used as nothing clean is left; nothing goes without need |
| `CacheEntries.CoherentIffOverlay` | btcontent.cpp:540-575 | the flat array of the theorems is the overlay of the entries on the disk, and clean entries repeat the disk |
| `CacheEntries.TotalBound` | btcontent.cpp:1055-1079 | ascending disjoint entries of a range hold no more bytes than it has |
| `FileStore.Files.Write` | btfiles.cpp:191-371 | out of range it changes nothing; in range it ends with the files holding what WriteAt says, over any number of real and staging files, old and new, and whatever the disk does; unless it goes astray the list, the tiling and the merge flag stay right |
| `FileWrites.WriteRight` | btfiles.cpp:264-366 | whatever the disk does, a write shows exactly its bytes in its range and changes nothing else; when the disk fails nothing outside the range changes and nothing goes missing; the files stay tiled; all this unless it goes astray, which takes two staging files behind a real file that it fills and leaves, and with them it does go astray if the disk does not fail |
| `FileWrites.WriteClear` | btfiles.cpp:264-366 | a write that has no byte in common with a staging file does not go astray, as long as each staging file holds something and, right behind a real file, a byte that that one does not; and it keeps them so, unless it leaves a new one empty |
| `FileWrites.WriteMerges` | btfiles.cpp:345-349 | if something can be merged after a write and nothing could before, the write says so |
| `FileWrites.SeekFirst` | btfiles.cpp:225-239 | the search leads to a file that holds the offset, ends there or starts behind it, past everything that ends before |
| `FileStore.Files.Read` | btfiles.cpp:191-371 | across any number of real, empty and staging files a read of bytes that are there returns what ReadAt says, and goes wrong exactly if that is nothing; out of range it fails |
| `FileStore.Files.Find` | btfiles.cpp:225-239 | finds the first file that holds the offset, or tells that there is none; for a write the file that Seek leads to, or the gap where a staging file is to go |
| `FileStore.Files.MergeStaging` | btfiles.cpp:380-506 | makes of the files what MergeOne says for a disk on which so many writes go well: what is shown does not change, and the staging file goes exactly when all of it has been copied |
| `FileMerges.OneRight` | btfiles.cpp:380-506 | a merge fails only if fewer writes go well than it takes, and then there is more to copy |
| `FileStore.Files.FindAndMerge` | btfiles.cpp:509-528 | ends with what Merges says; the flag stays up exactly after a failed write, or when one has been merged and only one was to be |
| `FileMerges.MergesRight` | btfiles.cpp:509-528 | what is shown does not change; it fails only if a write does, with something left to merge; otherwise it merges exactly if something can be merged, and leaves nothing if all is to be merged |
| `FileMerges.MergesFirst` | btfiles.cpp:509-528 | if one is to be merged it is the first that can be, all of it |
| `FileStore.Files.constructor` | btfiles.cpp:873-1109 | files of given lengths tile the torrent, and nothing of it is there yet |
| `FileLayout.MergedView` | btfiles.cpp:430-467 | copying staged bytes to the end of the prefix hides the staged ones and shows the same |
| `FileLayout.Inserted` | btfiles.cpp:268-310 | a new staging file between two others, empty or not, keeps the files tiled and adds just its bytes to what is shown |
| `FileReads.ReadExact` | btfiles.cpp:225-366 | however long the real files are, a read of bytes that are there returns them, unless it goes on past the end of a real file that has passed the staging file behind it, and then it does not |
| `FileReads.StrictReads` | btfiles.cpp:225-366 | as long as each staging file holds something and, right behind a real file, a byte that that one does not, every read of bytes that are there returns them |
| `FileReads.PassedReads` | btfiles.cpp:264-366 | when one real file of such a list grows, the reads across its new end stay right exactly if it does not pass the staging file behind it |
| `FileRuns.Run` | btfiles.cpp:191-528 | in any run from empty files on, with failures anywhere, what is shown before each step and at the end is what has been saved; a read of saved bytes returns them, unless a Strays holds then, and in that case it goes wrong; merges do not change what is shown, fail only if a write does, and merge what they are asked to otherwise; the run ends early only with a write that goes astray, for which a WriteStrays holds |
| `FileRuns.CalmRun` | btfiles.cpp:191-528 | a run in which no write meets staged bytes and no new staging file is left empty gets to its end, and no read of it goes wrong |
| `FileRuns.ApartRun` | btfiles.cpp:191-528 | in a run of writes that have no byte in common, none of which leaves a new staging file empty, every write goes to the disk and no read goes wrong |
| `FileExamples.Misread` | btfiles.cpp:268-310 | in every run of three writes and a read over five bytes, whether the staging file of the second could be written or not, the read of two saved bytes goes wrong |
| `FileExamples.MisreadRun` | btfiles.cpp:268-366 | such a run |
| `FileExamples.GoesAstray` | btfiles.cpp:322-327 | in every run of three writes over eight bytes, none of which fails, the third goes astray |
| `RequestQueues.RequestQueue.FixSend` | btrequest.cpp:59-102 | the failsafe changes nothing in any reachable queue |
| `RequestQueues.RequestQueue.SentNext` | btrequest.cpp:30-57 | the next slice joins the prefix of those sent, and the cursor is on the first that is not |
| `RequestQueues.RequestQueue.Add` | btrequest.cpp:220-259 | a slice goes to the end of its piece, or a new piece to the end; the cursor is right afterwards exactly unless slices behind it have been sent |
| `RequestQueues.RequestQueue.Requeue` | btrequest.cpp:386-401 | returns 1 exactly if the cursor is already past the place of the slice, which then is the one slice before it that is unsent |
| `RequestQueues.RequestQueue.SentSlice` | btrequest.cpp:39-57 | marking the requeued slice as sent makes the cursor right again |
| `RequestQueues.RequestQueue.Remove` | btrequest.cpp:341-364 | takes out the first slice with that place and length, and nothing else; the sent prefix shrinks exactly if the slice was in it |
| `RequestQueues.RequestQueue.Pop` | btrequest.cpp:524-550 | takes out the first slice and tells which it was |
| `RequestQueues.RequestQueue.Delete` | btrequest.cpp:367-381 | takes out one piece with all its slices; the sent prefix loses what it had of them |
| `RequestQueues.RequestQueue.Append` | btrequest.cpp:299-314 | a piece from elsewhere goes to the end with nothing of it sent, unless the queue has that piece |
| `RequestQueues.RequestQueue.Transfer` | btrequest.cpp:276-296 | one piece leaves this queue and arrives in the other or is dropped; both cursors stay right and the queues share nothing |
| `RequestQueues.RequestQueue.TransferAll` | btrequest.cpp:263-296 | this queue is empty afterwards, the other has got every piece that it lacks and that is not dropped, in order |
| `RequestQueues.RequestQueue.DroppedWhole` | btrequest.cpp:288-294 | a piece on its way to the pending queue is dropped exactly if it still has all its slices |
| `RequestQueues.RequestQueue.Reassign` | btrequest.cpp:317-338 | hands over the first piece that is wanted and that the other lacks; without one nothing changes |
| `RequestQueues.RequestQueue.Copy` | btrequest.cpp:113-128 | the other queue gets slices like those of the piece, all unsent, in the same order; this one keeps its own |
| `RequestQueues.RequestQueue.AddPiece` | btrequest.cpp:630-652 | queues slices that tile the piece |
| `RequestQueues.RequestQueue.Shuffle` | btrequest.cpp:132-191 | for any random bits the piece keeps its slices in another order that starts with another slice, and the queue stays right |
| `RequestQueues.RequestQueue.MoveLast` | btrequest.cpp:405-422 | the slice goes to the end of its piece, the others keep their order |
| `RequestQueues.RequestQueue.Qsize` | btrequest.cpp:195-204 | counts all slices |
| `SliceShuffle.Shuffled` | btrequest.cpp:138-187 | the rearranged list is a permutation that ends with null; its first slice has another offset if two offsets differ |
| `SliceShuffle.OtherFirst` | btrequest.cpp:180-187 | when nine rounds have left the same offset first, rotating once helps |
| `SliceGrid.TilesOnce` | btrequest.cpp:630-652 | every byte of a piece is in exactly one of the slices that AddPiece makes |
| `SliceGrid.NSlicesBound` | btrequest.cpp:644-652 | NSlices slices reach the end of the piece, one less do not |
| `SliceGrid.TidyCount` | btrequest.cpp:288-294 | a piece with as many slices as the whole piece has them all, so counting is enough |
| `Swarms.Swarm.Run` | peer.cpp:191-352 | for any number of peers, any order of events and any connection failures every counter equals the number of slices sent until it is reset, and no queue is longer than Peak; for safe sizes no counter is ever reset; each step leads from scene to scene by what its events do |
| `Swarms.Swarm.Do` | peerlist.cpp:719-757 | the step happens to the peers that it concerns, one after the other; after a slice or a piece has been received nobody asks for it any more and it is not pending |
| `Swarms.Swarm.Act` | peer.cpp:624-754 | what happens to one peer changes its own queue and the pending one as the event says, and no other |
| `Peers.Peer.Handle` | peer.cpp:354-561 | an event does to the peer's requests, its counter and states, and the pending ones what Happened says of it, case by case, down to the number of messages that may still go out; when the connection fails and when the peer chokes all requests are given up; the counter stays exact until it is reset, and for safe sizes it is not reset |
| `PeerEvents.GivenKeeps` | btrequest.cpp:263-296 | of what is given up each piece is pending afterwards, unless it still has all its slices, and what was pending stays so |
| `PeerEvents.AskingKeeps` | peer.cpp:191-352 | while more is asked for nothing that was queued is lost or moved, unless the peer has nothing to offer |
| `Peers.Peer.Exactly` | peer.cpp:624-659 | until it is reset the counter is the number of sent slices, the cursor is on the slice of that number, and the queue is no longer than Peak |
| `Peers.Peer.SendRequest` | peer.cpp:624-659 | ends, though it and RequestPiece call each other; goes through batches and choices as Sending says, with the counter exact and the queues apart; for safe sizes no counter beyond the limit arises |
| `Peers.Peer.RequestPiece` | peer.cpp:191-352 | ends, as the queue grows by at least a slice each time; with a whole piece queued it only stops further sending; with room the first wanted pending piece that the queue lacks is taken over, otherwise the slices that another peer has of a piece, in any order, or all of a new piece; then it is requested |
| `Peers.Peer.Compare` | peerlist.cpp:693-716 | the first slice of a piece goes behind the others each time another queue has the same in front, and the others keep their order |
| `Peers.Peer.SendBatch` | peer.cpp:629-654 | sends five, or what is allowed, there or let through if that is less, and fails exactly if the connection does not let all through; resets exactly a counter beyond the limit |
| `Peers.Peer.Uncount` | peer.cpp:672-676 | a counter above zero goes down by one; it is reset only if it was zero or beyond the limit |
| `Peers.Peer.NotInterested` | peer.cpp:171-178 | losing interest cancels what has been sent and empties the queue, unless the connection fails before that; a peer in which there is no interest is left as it is |
| `Peers.Peer.RequestCheck` | peer.cpp:950-979 | a peer that has nothing wanted loses its queue; one that chokes is only told of the interest; otherwise a counter beyond the limit is reset, and exactly such a one; a piece is asked for if nothing is queued, what is queued is sent on if more is due, and nothing else is done; for safe sizes nothing is reset |
| `Peers.Peer.CancelPiece` | peer.cpp:661-695 | the piece and its share of the counter go together, exactly if as many messages go out as of it has been sent; a message names a piece number that is not set exactly if the first slice of the piece has been sent, and all others name the piece |
| `Peers.Peer.CancelRequest` | peer.cpp:697-724 | once all that has been sent is cancelled, the counter is zero; it fails exactly if fewer messages go out than have been sent |
| `Peers.Peer.CancelSliceRequest` | peer.cpp:726-754 | a slice that was sent takes one off the counter, one that was not takes none; without such a slice, or without a connection, nothing changes |
| `Peers.Peer.PieceDeliver` | peer.cpp:807-853 | a slice that arrives, was requested and is saved leaves the queue, and the counter goes down by one; one that cannot be saved is requested again at the end of its piece, and the counter goes down unless it is sent at once; what was not requested leaves the queue if it is accepted, and the counter stays |
| `Peers.Peer.RequestSlice` | peer.cpp:933-948 | a slice requested again is sent at once exactly if the cursor is past its place, and then the counter goes up by one |
| `Peers.Peer.PutPending` | peer.cpp:1360-1368 | all pieces go to the pending queue or are dropped, nothing is queued |
| `QueueBounds.OneTest` | peer.cpp:200-206 | for a queue that is at most two pieces long the two tests for room, the first on unsigned numbers, come to less than a whole piece being queued |
| `QueueBounds.RoomIff` | peer.cpp:199-206 | the two tests find room for a piece in an empty queue exactly if a slice is no longer than a piece |
| `QueueBounds.NothingFits` | btcontent.cpp:362-364 | pieces of 8192 bytes, with the default slice size, for which there is no room in any queue |
| `QueueBounds.ConfiguredIff` | btconfig.cpp:992-997 | the slice sizes that any settings and any torrent lead to: 1024 bytes, or the default unless pieces have 1024 |
| `QueueBounds.PeakGrown` | peer.cpp:200-211 | a piece that is queued while there is room leaves the queue no longer than Peak |
| `QueueBounds.LongIff` | peer.h:161-163 | Peak is more than ReqQueueLength exactly if the first piece has a slice more than go into a piece whole, and the torrent at least twice as many as do |
| `QueueBounds.UnsafeIff` | peer.h:164-166 | for configured sizes, Safe fails exactly if a slice has 1024 bytes, one to four go into a piece whole, and the condition of LongIff holds |
| `QueueBounds.UnsafeSizes` | peer.h:164-166 | two pieces of 1500 bytes in slices of 1024 are such sizes, and the limit is one request |
| `Overruns.Fill` | peer.cpp:191-352 | a run of one peer, for all sizes of LongIff that can be configured, after which the queue holds Peak slices, twice as many as go into a piece whole |
| `Overruns.Trusted` | peer.cpp:661-695 | a run from a new peer, for all those sizes, in which a piece is cancelled with a message that names no piece |
| `Overruns.Overrun` | peer.cpp:950-963 | for all configured sizes that are not Safe, a run in which every slice of a queue has been sent, the counter says so, and the next RequestCheck sets it to zero |
| `Bitfields.Bitfield.Invert` | bitfield.cpp:199-219 | the complement, with its exact count, although single bits are turned over while the count is stale |
| `Bitfields.Bitfield.UnSet` | bitfield.cpp:179-197 | takes a number out, of a full set too; with a stale count the count goes down by one |
| `Bitfields.Bitfield.Set` | bitfield.cpp:165-177 | puts a number in; the buffer is gone exactly when the set is full |
| `Bitfields.Bitfield.Or` | bitfield.cpp:221-236 | union |
| `Bitfields.Bitfield.And` | bitfield.cpp:258-278 | intersection |
| `Bitfields.Bitfield.Except` | bitfield.cpp:238-256 | difference |
| `Bitfields.Bitfield.Assign` | bitfield.cpp:73-90 | the same set, with a buffer of its own |
| `Bitfields.Bitfield.IsSet` | bitfield.cpp:159-163 | membership, also past the last number |
| `Bitfields.Bitfield.Recalc` | bitfield.cpp:114-136 | the count is the size of the set, and a full set loses its buffer |
| `Bitfields.Bitfield.CountTable` | bitfield.cpp:119-128 | the table built by doubling holds the number of ones of every byte |
| `Bitfields.Bitfield.Random` | bitfield.cpp:280-292 | a member of a set that is not empty |
| `Bitfields.Bitfield.Transmit` | bitfield.cpp:294-314 | what WriteToBuffer writes SetReferBuffer reads as the same set |
| `Bitfields.Bitfield.SetReferBuffer` | bitfield.cpp:294-306 | takes the set from bytes whose spare bits may be anything |
| `Bitfields.Bitfield.FillAll` | bitfield.cpp:103-111 | all bits up to the last one, and no spare bit |
| `Sha1.Transform` | sha1.c:107-194 | the circular workspace and the renamed registers give the compression function of FIPS PUB 180-1, section 7 |
| `Sha1Known.KnownAnswer` | sha1.c:107-275 | the digest of "abc" is the one of FIPS PUB 180-1, appendix A |
| `Sha1Known.Roots` | sha1.c:121-125 | the constants are the square roots of 2, 3, 5 and 10 in fixed point |
| `Sha1Known.StartingBytes` | sha1.c:200-211 | the first four words of the start are the hexadecimal digits up and down, byte by byte |
| `Sha1.WorkspaceWords` | sha1.c:117-118 | the sixteen words that are kept are those the next word of the schedule needs |
| `Sha1Stream.Context.Update` | sha1.c:217-243 | the context is a function of the whole message so far |
| `Sha1Stream.Context.Final` | sha1.c:248-275 | feeds exactly the padding of FIPS PUB 180-1, section 4, and writes out the digest of the message |
| `Sha1Stream.Context.Fill` | sha1.c:257-260 | the padding loop ends, with as many zeros as the standard asks for |
| `Sha1Stream.CountByte` | sha1.c:253-256 | the two count words hold eight times the length, modulo 2^64 |
| `Sha1Stream.Hash` | sha1.c:76-89 | however a message is split, the digest is that of the whole |
| `Bencode.DecodeRev` | bencode.cpp:139-155 | without a key list: a text is accepted exactly if it starts with a tree of the grammar, and the result is the length of that tree's text |
| `BencodeValues.Sample` | bencode.cpp:181-221 | a dictionary with a number and a list, character by character |
| `Bencode.DecodeDict` | bencode.cpp:87-119 | with a key list: the place of the value that the list leads to, and nothing if there is none |
| `Bencode.DecodeList` | bencode.cpp:121-137 | the items up to the end of the list, each decoded whole |
| `Bencode.DecodeQuery` | bencode.cpp:157-179 | the number, string or item that the key list leads to; nothing if it is not there or of another kind |
| `Bencode.BufInt` | bencode.cpp:35-58 | finds the digits between the two characters, whose number it returns, exactly if they are there |
| `Bencode.BufStr` | bencode.cpp:60-75 | a string of the length that is written before it |
| `Bencode.CompareKey` | bencode.cpp:28-33 | zero exactly if the key is the first component of the key list |
| `Bencode.NextKey` | bencode.cpp:21-26 | the key list after its first component |
| `BencodeQuery.LookupIsWalk` | bencode.cpp:96-118 | looking a key list up in the decoded trees is walking down the value along the path |
| `BencodePrint.Output.Print` | bencode.cpp:181-221 | the printers print the text of the value's tree |
| `BencodePrint.Output.PutBuf` | bencode.cpp:181-189 | length and string; fails exactly on the empty string, after its length has been written |
| `BencodePrint.Output.PutInt` | bencode.cpp:196-206 | any 64-bit number, with its sign |
| `BencodeValues.NumberPrinted` | bencode.cpp:196-206 | the decimal form of a number fits the decoder's limit and is read as the same number |
| `BencodeRoundTrip.PrintAndDecode` | bencode.cpp:139-221 | decoding what has been printed, followed by anything, takes exactly what has been printed |
| `BencodeRoundTrip.PrintAndQuery` | bencode.cpp:157-221 | a query on what has been printed gives what is under the path |
| `BencodeRoundTrip.WriteAndReadPath` | bencode.cpp:223-269 | a path that fits the buffer, written as a list of names, is read back, but for a separator at its end, and the buffer is not written past |
| `BencodePath.Path2List` | bencode.cpp:223-242 | writes the list of the names of the path, and fails exactly if one is empty |
| `BencodePath.List2Path` | bencode.cpp:244-269 | a list of names each of which is copied, however their lengths are spelled, gives their path and the length of the list's text; the buffer is written to past its end exactly if Overruns says so, which is about the lengths of the names and the size of the buffer |
| `BencodePath.OverrunsTwo` | bencode.cpp:258-264 | two names whose path is as long as the buffer, of any size, go past its end |
| `BencodePath.OverrunsPath` | btfiles.cpp:984 | names of 500 and 523 characters go past the end of the buffer that the program provides |
| `BencodePath.JoinComponents` | bencode.cpp:223-242 | splitting a path and joining it only drops a separator at its end |
| `Streams.Stream.Run` | peer.cpp:1175-1219 | whatever arrives in whatever portions and whatever is resized and sent meanwhile, the messages delivered are how the frames of the received bytes begin, and all of them after the last receipt; what has been received and what is still to come are all the bytes that the network gave |
| `Streams.Stream.Turn` | peer.cpp:1175-1219 | takes from the network what there is up to the limit, and delivers message after message; a bad message is told of exactly if one is refused or garbage comes first, and then all before it have been delivered |
| `Streams.Stream.Feed` | btstream.cpp:165-194 | m_msglen stays the length that the buffer starts with; the rate is told of each payload byte once; there is room for every message that is accepted |
| `Streams.Stream.HaveMessage` | btstream.cpp:155-163 | tells a whole message, a part of one, and a length that is too long apart |
| `Streams.Stream.PickMessage` | btstream.cpp:196-203 | takes out one message and finds the length of the next |
| `Streams.Stream.FullBuffer` | btstream.cpp:52-53 | a buffer of the largest size that has no room left starts with a message to deliver or with garbage |
| `Streams.Stream.SendPiece` | btstream.cpp:118-131 | header and slice make one message, of which as much is sent at once as the socket takes |
| `Streams.Stream.SendHave` | btstream.cpp:78-87 | one message of five bytes, with the piece number in network order |
| `Streams.OnTheWire` | btstream.cpp:69-131 | messages of all kinds byte by byte, as BEP 3 has them |
| `Bytes.NetworkOrder` | btstream.cpp:12-46 | the number in four bytes compares as the bytes do from the first on, so the first weighs most |
| `Streams.Stream.SendCancel` | btstream.cpp:106-116 | one message of thirteen bytes, with the place and the length of the slice in network order |
| `Streams.Stream.SendBuffer` | btstream.cpp:206-209 | what is sent before the first message comes before it in the stream |
| `Streams.Stream.FeedRaw` | btstream.h:67 | what comes during the handshake is kept as it is |
| `Streams.Stream.Begin` | peer.cpp:1080-1096 | the handshake is taken from the front of what has come, the rest starts the frames, and the bit field is the first message, if there is one |
| `Streams.Stream.SendKeepalive` | btstream.cpp:145-148 | four bytes, which are a message of length zero if the last three are zero |
| `Streams.EndToEnd` | btstream.cpp:69-209 | what one side says is what the other delivers: part of it, in order, and all of it once everything has come |
| `Framing.FramesUnique` | btstream.cpp:155-203 | whatever messages a stream is made of are its frames |
| `Framing.FramesChunks` | btstream.cpp:165-203 | the frames do not depend on how the stream is cut |
| `Framing.FramesWhole` | btstream.cpp:155-203 | frames and rest are the whole stream, and there is no message left in the rest |
| `Framing.KeepaliveIff` | btstream.cpp:145-148 | the exact condition for what is sent to be a keepalive |
| `Buffers.BufIo.Put` | bufio.cpp:119-142 | a queue: what has been sent and what is buffered are all bytes put, in order, as long as the buffer is valid; it fails only if the socket fails or the bytes do not fit |
| `Buffers.BufIo.FlushOut` | bufio.cpp:74-94 | sends from the front and keeps the rest |
| `Buffers.BufIo.FeedIn` | bufio.cpp:186-218 | received bytes are added at the end; when the buffer stays valid none is lost, at a closed connection too |
| `Buffers.BufIo.SetSize` | bufio.cpp:39-71 | never loses bytes; fails exactly beyond the maximum and the present size |
| `Buffers.BufIo.PickUp` | bufio.cpp:220-229 | drops bytes from the front, or nothing if there are not so many |
| `Unchoking.SelectUnchoke` | peerlist.cpp:1281-1324 | picks the first exactly if it ranks no lower, in both modes, with ratios as exact numbers |
| `Unchoking.Downloading` | peerlist.cpp:1288-1305 | among peers while downloading: who has sent anything comes first, then the faster, then the one who was given the smaller share of it |
| `Unchoking.Seeding` | peerlist.cpp:1299-1305 | among peers while seeding: who has sent more than it got comes first, then the one with the smaller ratio |
| `Unchoking.ByPieces` | peerlist.cpp:1307-1323 | otherwise the one farther from half of the pieces, then the one with more |
| `Unchoking.Total` | peerlist.cpp:1281-1324 | any two peers can be compared |
| `Unchoking.Transitive` | peerlist.cpp:1281-1324 | the preference is transitive |
| `Unchoking.Round.UnchokeCheck` | peerlist.cpp:1199-1279 | one more candidate: the ranked slots stay the best of all so far; a vacant slot is taken at once, otherwise a least preferred peer is ranked against, and the loser has the last slot if it is vacant or its turn; who is left without is choked |
| `Unchoking.Round.FindSlot` | peerlist.cpp:1213-1225 | the first vacant slot, or that of a least preferred peer |
| `Unchoking.Round.TakeTurns` | peerlist.cpp:1242-1276 | who keeps the last slot: the one who has waited longer, unless an empty peer is involved and the random bits say otherwise |
| `Unchoking.Round.Check` | peerlist.cpp:304-456 | after the pass exactly the peers in the slots are unchoked, but for connections that let no message through; nobody outside the ranked slots is preferred to anybody inside; the last slot has gone from peer to peer as Placed says |
| `Accounting.Ledger.GetNeedBytes` | btcontent.cpp:1639-1656 | the sum of the lengths of the missing pieces that are wanted |
| `Accounting.Ledger.APieceComplete` | btcontent.cpp:1234-1271 | a piece whose hash matches is taken off what is left, once, and is counted and queued for flushing |
| `Accounting.Ledger.CheckNextPiece` | btcontent.cpp:1137-1185 | goes past what has been checked and checks the next piece, which is there exactly if its hash matches; one that cannot be read is where the check goes on |
| `Accounting.Ledger.CheckExist` | btcontent.cpp:1108-1135 | what is there is what exists and matches; it fails exactly if something that exists cannot be read |
| `Accounting.Ledger.Resume` | btcontent.cpp:446-486 | after a restart what is left is the size of what is missing, trusted or to be checked |
| `Accounting.Ledger.Run` | btcontent.cpp:1137-1271 | in any order of completing and checking what is left is the size of what is missing, what is there, checked, got and to be flushed is what the events make of it one by one, and the check gets to its end |
| `Accounting.Ledger.LeftNothing` | btcontent.cpp:1639-1656 | nothing is left exactly if every piece is there |
| `Accounting.Torrent.BytesShort` | btcontent.cpp:1649-1653 | counting pieces and correcting for a short last one gives the sum of the lengths |
| `Accounting.Torrent.BytesTotal` | btcontent.cpp:419-423 | all piece lengths make up the total |
| `Pieces.PiecesTile` | btcontent.cpp:1098-1106 | piece k starts where the first k end |
| `Pieces.SliceInPiece` | btcontent.cpp:528-540 | a slice inside its piece touches no other |
| `FileFilter.SetFilter` | btfiles.cpp:1419-1463 | leaves out exactly the pieces that hold a byte of the file, also when it ends on a boundary or is empty, and counts them |
| `FileFilter.StopPiece` | btfiles.cpp:1439-1444 | the correction at a piece boundary gives the piece of the last byte |

## Left out

- Sockets, select loops, HTTP, trackers, the console, configuration and CTCS: plumbing around what is modelled.
- SliceCache.Cache.FlushEntry: the call back into CacheConfigure (btcontent.cpp:831-837) is cut, so a flush does not resize the cache.
- SliceCache.Cache.CacheClean: the retry of a failed flush at its start (btcontent.cpp:608-609) is cut, as FlushPiece and FlushCache are steps of their own in a run.
- SliceCache.Cache.WriteSlice: a cache size of zero is not modelled.
- SliceCache.Cache.Configure: takes any size up to the limit, in place of the estimates of CacheEval, which depend on rates and the clock.
- SliceCache.Cache.Run: hit and miss counters, buffers shared with the caller and 32-bit wrap of sizes are not modelled.
- FileStore.Files.Write: real bytes on disk, opening and closing, timestamps, directories, ExtendFile and the never taken branch for a `len` beyond `size_t` (btfiles.cpp:207-223) are not modelled, nor are the merges that opening a file tries when the directory is full (btfiles.cpp:173-175). The bytes of a file that a write has skipped are zeros; they never show.
- RequestQueues.RequestQueue.MoveLast: requires an unsent slice, and Shuffle a piece of which nothing has been sent, as all callers provide.
- Peers.Peer.RequestSlice: the connection does not fail while a slice is requested again; one that fails elsewhere is closed on the spot.
- Peers.Peer.PieceDeliver: the recovery after a failed flush, where the code relies on the reset branch, is not modelled.
- Peers.Peer.RequestPiece: the choice of a piece (FindValuedPieces, What_Can_Duplicate, ChoosePiece) and the number to send at once, which comes from measured rates, are any that are allowed.
- FileRuns.Run: what comes after a write that has gone astray is not modelled; reads of bytes that have not all been saved are left out of the run, and end in an error or, past everything that is there, in a null pointer.
- QueueBounds.LongIff: is for sizes with fewer than 2^31 slices to a piece.
- Bitfields.Bitfield.CountTable: the table is built for each count; the code keeps it, and the number of bits, in static storage.
- Bitfields.Bitfield.SetReferBuffer: reading and writing a bit field file is not modelled.
- Sha1.Transform: the path for machines with the least significant byte first; wiping variables is not modelled.
- Sha1Stream.Context.Update: is for at most 2^32 - 64 bytes at once; beyond that the code's 32-bit sums wrap.
- Bencode.DecodeRev: characters are not bytes of a C string, so no character ends a text early; with a key list the contract speaks of texts that start with a dictionary.
- BencodeRoundTrip.PrintAndDecode: is for numbers that are not negative and strings that are not empty, as the decoder refuses the former and the printer the latter.
- BencodePath.List2Path: where the buffer is written past its end is told for lists of names, not for lists that begin with names and go on with something else.
- Streams.Stream.Feed: the rate is a count; smoothing and the clock are left out. A length of nearly 2^32 makes the sum with the prefix wrap, which is modelled and concerns the rate only.
- Streams.Stream.Run: a system call that is interrupted is repeated at once and does not show.
- Unchoking.SelectUnchoke: ratios are exact rationals in place of doubles; piece counts do not wrap at 2^31.
- Unchoking.Round.Check: one pass over the peers, without the `goto` that may offer a peer twice (peerlist.cpp:410-413); no peer in a slot fails during the pass.
- Accounting.Ledger.APieceComplete: is for pieces that have been requested, and so have been checked; dropping a bad piece from the cache is Uncache of the cache model.
- FileFilter.SetFilter: the files are a row of spans, not the linked list of the file store.
- BWReQueue, get_bt_int and put_bt_int without ntohl, rate measurement, SaveBitfield and the list of filters are not modelled.
