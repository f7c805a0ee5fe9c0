# Failover and replication of the file server, modelled in Dafny

One server is master; the others are backups that joined it. The master forwards every client request to every
backup before carrying it out. When the master is lost the backups elect a new one over a ring that the joins built.
This project models that protocol, the byte formats it runs on and the small concurrent pieces around it, and proves
what they guarantee for all inputs, all schedules and all reachable states.

How it is organised:

| file | models |
|---|---|
| `Wrappers.dfy`, `Bytes.dfy`, `Packets.dfy`, `Sockets.dfy` | values that may be missing, integers and C strings as bytes, the packet header, framing over partial reads |
| `Signing.dfy`, `Files.dfy`, `Records.dfy`, `EndToEnd.dfy` | packets wrapped with a user name, serialized files, what requests they denote, the whole path of an upload through master and backups |
| `Listing.dfy`, `Sync.dfy`, `Convergence.dfy` | the directory listing that is printed and parsed back, both sides of the first synchronisation, and the two sides put together |
| `Addresses.dfy`, `Joining.dfy` | the "ip:port" texts, the join protocol that forms the ring |
| `Rings.dfy`, `Voting.dfy`, `Election.dfy`, `ElectionTheorems.dfy` | positions on a ring, one backup's voting loop, the ring of voters, what the election guarantees |
| `Failover.dfy`, `Survivors.dfy` | joins, loss of the master and election put together; what each surviving object does in it |
| `Stores.dfy`, `Replication.dfy`, `Managers.dfy` | the files and what requests do to them, the replication protocol, the master's handler |
| `Logins.dfy`, `InternalRouter.dfy`, `Replicas.dfy` | the login context, the object that keeps a backup or a master going, what its store is worth in terms of the replication protocol |
| `Durability.dfy` | joins, replication, loss of the master and election in one run: what the next master holds |
| `Handoff.dfy`, `Slots.dfy` | the one-slot hand-off between two threads, the connection slots of a user |

Conventions. A FIFO link is the log of everything ever written to it plus the number of packets its reader has taken.
A run is a list of events, each of which must be possible when its turn comes; the two threads, the handlers and the
network interleave in any way. Code that changes objects step by step is a class or a method with its loops
(`Socket`, `File`, `Directory`, `Client`, `User`, `InternalRouter`, `Manager`), proved against functions that the
transition systems and the lemmas use too: the step of the election is `Voting.React`, and `InternalRouter.Elect` is
proved to do exactly what `Voting.Ballots` makes of it.

Results that differ from what a reader might expect of the code:

* On the announcement (seqn 1) a loser writes its own vote, not the packet it received (internal_router.cpp:165). So
  the announcement never passes the winner's successor: all losers hear of the new master exactly when there is one
  loser (`AllLosersHearIffTwo`), and exactly one backup ever rejoins (`ExactlyOneRejoins`).
* The 16-bit file counter against a 32-bit total: beyond 65535 files the client never recognises the last one, and the
  synchronisation then converges only if the client had no files of its own (`SyncConverges`).
* The loops over a user's connections stop at the number of active slots, not at the last of them. So a broadcast
  reaches the right connections, and every connection gets a handler, exactly when no free slot precedes an active one
  (`BroadcastReachesAllIffPrefix`, `DispatchReachesAllIffPrefix`); `close_all_connections` closes all exactly when
  there are none, or one in the first slot (`CloseAllClosesAllIff`); one logout is enough for a gap (`GapAfterLogout`).
* Records are forwarded before they are carried out, and there is no state transfer to a backup that joins late. A
  backup that has read its link agrees with the master on a file mentioned there exactly when the last record about the
  file takes effect at both or at neither (`ReplicaAgreement`): it fails for an upload that reached the backup before
  the user's directory did (`LateBackupDisagrees`) and for one that the master refused (`RefusedUploadIsReplicated`).
* A refused delete is broadcast to the user's other clients as the delete of a file called "error deleting file", and a
  refused upload as an upload: those two are exactly where a client falls out of step (`MirrorsStayInStep`).

## Model

| member | source | states |
|---|---|---|
| InternalRouters.InternalRouter.Elect | server/comms/router/internal_router.cpp:128-198 | takes over at once without a neighbour; otherwise it connects to the neighbour's internal port, and what it writes, how far it reads and how it ends are those of the voting loop on its inbox; an inbox without votes leaves it with its own vote sent and nothing else; a loser forgets id and neighbour and dials exactly the address the announcement renders, or what stands around its last colon |
| Survivors.ElectAtSurvivor | server/comms/router/internal_router.cpp:128-198 | at the end of any vote, the object of each survivor has written what the ring says; the earliest joined backup is master, the second relaunches and has dialled that backup's internal address, every other one is connected to its neighbour's |
| Voting.OtherPacketsDoNotMatter | server/comms/router/internal_router.cpp:155-197 | packets that are no votes, and votes numbered neither 0 nor 1, change nothing wherever they come in |
| InternalRouters.LastColonNames | server/comms/router/internal_router.cpp:169-172 | of any text the announced address is what stands around its last colon, and of a rendered address that address |
| ElectionTheorems.NodesRunTheirLoop | server/comms/router/internal_router.cpp:153-198 | in any reachable state of the ring each node is exactly where its own sequential loop leaves it on the packets it has read |
| Election.ReactionFollowsStream | server/comms/router/internal_router.cpp:155-197 | the answer to the r-th packet of the predecessor is the (r+1)-th packet of a closed-form stream, through votes, win, announcement and the stray vote it triggers |
| Election.BestIsLeast | server/comms/router/internal_router.cpp:180-195 | forwarding the smaller id hop by hop yields the smallest id of a window of positions |
| Election.ReachableInv | server/comms/router/internal_router.cpp:140-197 | every log of every reachable state is a prefix of that stream, of bounded length, and fixes the node's phase |
| ElectionTheorems.Confluence | server/comms/router/internal_router.cpp:140-197 | any two schedules put the same k-th packet on the same link |
| ElectionTheorems.VotesCarryWindowMinimum | server/comms/router/internal_router.cpp:140-197 | until the announcement is read, the k-th vote on a link is that of the smallest id among the last min(k+1, n) positions |
| ElectionTheorems.OnlyTheSmallestIdWins | server/comms/router/internal_router.cpp:155-197 | in every state of every run a backup is master if and only if it has the smallest id and has read exactly n packets |
| ElectionTheorems.OneAnnouncement | server/comms/router/internal_router.cpp:140-196 | every packet ever sent is some backup's own vote with its address, but for one announcement, which is the winner's n-th reply and names the winner |
| ElectionTheorems.OnlySuccessorHears | server/comms/router/internal_router.cpp:161-185 | a backup relaunches exactly when it has read the announcement, and only the winner's successor ever does |
| ElectionTheorems.EveryEventSendsOnce | server/comms/router/internal_router.cpp:153-195 | no vote is swallowed: the packets ever sent are as many as the events of the run |
| ElectionTheorems.InFlightEqualsStarted | server/comms/router/internal_router.cpp:153-195 | the packets in flight are as many as the backups that have sent their initial vote |
| ElectionTheorems.NoDeadlock | server/comms/router/internal_router.cpp:153-195 | a run without a next event has elected the smallest id |
| ElectionTheorems.RunsAreShort | server/comms/router/internal_router.cpp:153-198 | no run has more than 2n^2 events |
| ElectionTheorems.EveryRunElects | server/comms/router/internal_router.cpp:153-198 | every run can be played to its end, and there the smallest id is master |
| ElectionTheorems.SuccessorHears | server/comms/router/internal_router.cpp:161-187 | at the end the winner's successor has read the winner's announcement |
| ElectionTheorems.AllLosersHearIffTwo | server/comms/router/internal_router.cpp:161-177 | at the end all losers have heard of the new master if and only if n = 2 |
| ElectionTheorems.OnlySuccessorRelaunches | server/comms/router/internal_router.cpp:161-177 | at the end a backup starts over if and only if it is the winner's successor |
| InternalRouters.InternalRouter.HandleJoin | server/comms/router/internal_router.cpp:236-271 | the newcomer is appended to the list and the replies of `JoinReplies` go out, or the request cannot be read and the server dies |
| InternalRouters.RepliesWelcome | server/comms/router/internal_router.cpp:251-270 | the replies, packet by packet: the newcomer's address to the backup before it, the first backup's address and the id to the newcomer |
| Joining.JoinLinks | server/comms/router/internal_router.cpp:251-270 | a join writes first neighbour and id to the newcomer, the newcomer's address to the backup before it, and nothing to anybody else |
| InternalRouters.InternalRouter.ReadJoinReplies | server/main.cpp:106-133 | main's one or two reads change the backup as the same packets do in the join protocol |
| Joining.NewcomerSettles | server/main.cpp:106-133 | the newcomer's own replies give it its index as id, its host and the first backup as neighbour |
| Joining.VeteranSettles | server/comms/router/internal_router.cpp:367-379 | whatever an earlier backup believes, its pending replies, old and new, lead to its place in the larger ring |
| Joining.RingForms | server/comms/router/internal_router.cpp:251-270 | after any joins and any order of delivery, once drained: ids 0..m-1, no neighbour for m = 1, the cycle i -> (i+1) mod m for m >= 2 |
| Joining.JoinsComplete | server/comms/router/internal_router.cpp:251-270 | from any state of any run some deliveries, and no further join, drain the links |
| Joining.OthersInJoinOrder | server/comms/router/internal_router.cpp:209-215 | the master's list is the list of those who joined, in join order |
| Joining.JoinTextRoundTrip | server/comms/router/internal_router.cpp:242-254 | requests and replies are read back as the peer they were made from |
| Addresses.AddressRoundTrip | server/comms/router/internal_router.cpp:169-172 | the last colon always recovers host and port, the first one if and only if the host holds no colon |
| Addresses.StoIOfToString | server/comms/router/internal_router.cpp:374 | stoi undoes to_string on every int |
| Addresses.StoIReadsDigits | server/comms/router/internal_router.cpp:374 | on any text, after blanks and a sign, stoi gives the number the digits spell, or throws if it does not fit |
| Addresses.StoINeedsDigit | server/comms/router/internal_router.cpp:374 | and throws if there is no digit there |
| Addresses.ToStringSpells | server/comms/router/internal_router.cpp:140 | to_string writes the digits of the number without leading zeros, after a minus if it is negative |
| Addresses.FirstSplits | server/comms/router/internal_router.cpp:372-374 | any text falls apart at its first colon, whatever stands on either side |
| Addresses.NoColonKeepsAll | server/comms/router/internal_router.cpp:372-374 | without a colon the whole text is host and port |
| Failover.DiallingFollowsRing | server/comms/router/internal_router.cpp:138-152 | with distinct addresses the connections the survivors open are exactly the links of the voting ring |
| Failover.LoneBackupTakesOver | server/comms/router/internal_router.cpp:129-135 | one backup, master lost: no neighbour, so it takes over without a vote |
| Failover.OnlyFirstBackupTakesOver | server/comms/router/internal_router.cpp:129-197 | two or more backups, any joins, any schedule of the vote: nobody but the earliest joined becomes master |
| Failover.FirstBackupTakesOver | server/comms/router/internal_router.cpp:129-197 | once the joins have settled, every such vote can be played to its end and then the masters are exactly the earliest joined backup |
| Failover.SuccessorIsTold | server/comms/router/internal_router.cpp:161-173 | the announced text parses to the internal address of that backup |
| Failover.ExactlyOneRejoins | server/comms/router/internal_router.cpp:161-177 | exactly one survivor relaunches, the second to have joined |
| Stores.OtherUsersDoNotMatter | server/comms/router/internal_router.cpp:317-344 | records of different users commute: a user's view of a file depends on the user's own records only |
| Stores.LastWriteDecides | server/comms/router/internal_router.cpp:323-344 | a file holds what the last record about it left if that record takes effect; otherwise that record was an upload without a directory and the file is not there |
| Stores.DirectoriesAtMaster | server/comms/manager/manager.cpp:149-178 | after any run a user has a directory at the master if and only if it was there or the user sent a SYNC_DIR_REQ |
| Stores.DirectoriesAtBackup | server/comms/router/internal_router.cpp:345-351 | and at a backup if and only if it was there or a login record of the user came |
| Stores.UploadAfterSync | server/comms/manager/manager.cpp:149-206 | what a user uploads after a sync request is stored at the master, whatever came in between |
| Replication.ReachableInv | server/comms/manager/manager.cpp:134-137 | every reachable state: stores are the records applied, links are suffixes of what was taken up, at most one record per user in progress |
| Replication.LinkHoldsLatest | server/comms/manager/manager.cpp:134-137 | at every moment a link carries of each user exactly the latest finished records plus at most the one in progress: nothing answered for is missing, reordered or repeated |
| Replication.LinkHoldsAllSince | server/comms/manager/manager.cpp:134-137 | at every moment a backup's link carries of each user exactly the records taken up since the backup joined that are finished, or in progress and already sent to it |
| Replication.ReplicaAgreement | server/comms/manager/manager.cpp:134-137 | at every moment a backup that has read its link agrees with the master, up to the record in progress, on a file the link mentions if and only if the last record about it takes effect at both or at neither; any other file is as on its own disk |
| Replication.LoginComesFirst | server/comms/router/router.cpp:83-110 | a backup that joined while the user was logged out hears of the login before anything else about the user |
| Replication.EarlyBackupAgrees | server/comms/manager/manager.cpp:134-137 | so it agrees with the master on a file the user has changed since if and only if the last change took effect at the master |
| Replication.LateBackupDisagrees | server/comms/router/internal_router.cpp:323-351 | a run in which a backup joins in mid-session, misses an upload for want of the directory, and does not get the file back with the next login |
| Replication.RefusedUploadIsReplicated | server/comms/manager/manager.cpp:134-223 | a run in which the master refuses an upload that its backup stores |
| Replication.EverythingCanFinish | server/comms/manager/manager.cpp:134-137 | from any state of any run the requests in progress can be completed and every link read to its end, without another request or backup |
| Durability.NewMasterHolds | server/comms/router/internal_router.cpp:129-197 | master lost at any moment of any run: the earliest joined backup takes over, and having read its link it holds the lost master's version of a file mentioned there if and only if the last record about it took effect at both or at neither |
| Durability.FinishedWritesSurvive | server/comms/manager/manager.cpp:134-137 | for a user logged out when the first backup joined, whatever was changed since is at the next master as it was at the lost one, if and only if the lost master took the last change |
| Managers.Manager.HandleConnection | server/comms/manager/manager.cpp:125-366 | each backup is sent the signed request once; a sync request adds the directory and nothing else, an upload writes its file if the directory is there, a delete removes its file, nothing else changes the store; the client gets the replies; an upload goes to every descriptor among the first `count` slots, a delete to all of them but its own; a logout frees the slot |
| Managers.RepliesSayWhatHappened | server/comms/manager/manager.cpp:137-362 | for each request the type and the content of the reply, accepted or refused as the store says |
| Managers.DownloadBringsFile | server/comms/manager/manager.cpp:233-276 | a download reply deserializes to the file the server has under that name, or is a refusal because there is none |
| Managers.MirrorsStayInStep | client/main.cpp:133-154 | a client that mirrors the user's directory stays equal to it through a shared request if and only if the server took the upload, and a refused delete finds no file named like the error text |
| Managers.OneHandlerPerConnection | server/comms/manager/manager.cpp:97-110 | in any interleaving a connection has exactly one handler while its flag is up and none otherwise |
| Managers.IdleGetsHandler | server/comms/manager/manager.cpp:97-110 | in any reachable state an idle connection gets its handler within two steps of the dispatching thread |
| InternalRouters.InternalRouter.BroadcastOthers | server/comms/router/internal_router.cpp:32-49 | one signed copy to each backup, in join order |
| Records.BackupDecodesSameRequest | server/comms/router/internal_router.cpp:317-344 | whatever client packet is wrapped, the backup changes its files as the wrapped request says for the same user |
| Records.BackupDecodesLogin | server/comms/router/router.cpp:95-102 | the login record is decoded to the user and the address it was made from |
| InternalRouters.InternalRouter.HandlePacket | server/comms/router/internal_router.cpp:315-384 | one packet read by the keepalive loop changes neighbour, files and login context as `OnPacket` says and nothing else |
| InternalRouters.UnsignedDoes | server/comms/router/internal_router.cpp:362-384 | an unsigned packet moves the neighbour if it is a notice that can be read, ends the backup if it is one that cannot, and otherwise has no effect at all |
| InternalRouters.SignedDoes | server/comms/router/internal_router.cpp:317-361 | a signed upload writes its file if the directory is there, a delete removes it, a login makes the directory and appends the address, anything else does nothing |
| InternalRouters.WatchFollowsNotices | server/comms/router/internal_router.cpp:301-414 | a backup never dies of what a master that keeps to the join protocol sends it, and its neighbour is the last one noticed, whatever other packets come in between |
| InternalRouters.InternalRouter.Keepalive | server/comms/router/internal_router.cpp:286-418 | everything read was applied in order; the watch ends on the first window at which the backup must give up, and not before |
| InternalRouters.GivesUpIffUnanswered | server/comms/router/internal_router.cpp:301-414 | a backup never gives up if and only if no read or probe fails and every silent window but the last is followed by an answer |
| InternalRouters.WatchAppliesRecords | server/comms/router/internal_router.cpp:317-344 | over a whole watch the files are those of the replication protocol for the records read |
| Replicas.WatchAppliesMessages | server/comms/router/internal_router.cpp:317-351 | a watch that has read the signed copies of any logins and client packets has made of its files what the master's own records for them make of them |
| Replicas.WatchKeepsAddresses | server/comms/router/internal_router.cpp:345-357 | and the login context of a fresh backup holds for each user the addresses of the logins among them, in order, and nothing of the requests |
| Replicas.WatchAgrees | server/comms/router/internal_router.cpp:286-418 | the store of a real backup object that has read its link is the backup's store of the replication protocol, so it agrees with the master under exactly the condition of `ReplicaAgreement` |
| InternalRouters.WatchKeepsLogins | server/comms/router/internal_router.cpp:345-360 | over a whole watch the users map is the fold of the login records read |
| InternalRouters.WatchFollowsJoins | server/comms/router/internal_router.cpp:367-379 | over a whole watch the neighbour moves as in the join protocol, however many records come in between |
| Logins.LoginsKeepOrder | server/comms/router/internal_router.cpp:345-357 | each user's addresses are kept in arrival order, and no user is made up |
| Logins.ContextConserved | server/comms/router/internal_router.cpp:117-127 | the flattened context has exactly one entry per login record, address by address, in whatever order the users are gone through |
| InternalRouters.InternalRouter.BuildContext | server/comms/router/internal_router.cpp:117-127 | the context is the users' address lists one after the other, each user once |
| InternalRouters.ContextAfterWatch | server/comms/router/internal_router.cpp:112-127 | from a fresh backup's watch to the next master's handshakes: as many entries as login records, with their addresses |
| Sockets.Socket.ReadPacket | commons/socket/socket.cpp:31-60 | however the stream is cut into pieces, one packet comes off its front with exactly its bytes, or the error its end calls for |
| Sockets.Socket.WritePacket | commons/socket/socket.cpp:62-74 | header, padding and payload are written after what was written before |
| Sockets.Socket.ReadPackets | commons/socket/socket.cpp:31-60 | repeated reads give what repeated decoding gives, up to the first failure |
| Sockets.FramingRoundTrip | commons/socket/socket.cpp:31-74 | decoding packets written back to back gives exactly that list and leaves exactly the bytes after them |
| Sockets.Transfer | commons/socket/socket.cpp:31-74 | the same over sockets, for every way the bytes may arrive in pieces |
| Sockets.TransferCut | commons/socket/socket.cpp:36-57 | a stream that ends inside a packet, after any whole ones and in any pieces: those are read, and the next read fails in the header or in the payload as the place of the end says |
| Packets.HeaderRoundTrip | commons/socket/socket.cpp:47-65 | the header's fields come back, whatever the padding holds |
| Packets.EncodeLayout | commons/packet.hpp:47-52 | the place of every byte of a packet, little-endian |
| Packets.TextOfBuilt | commons/socket/socket.cpp:82-93 | a text payload is read back if and only if it holds no NUL |
| Signing.SignatureRoundTrip | server/comms/router/internal_router.cpp:51-90 | unwrapping gives back the whole packet always and the user name if and only if it holds no NUL |
| Signing.SignedLayout | server/comms/router/internal_router.cpp:81-90 | header, payload, then the user's name with its terminator |
| Signing.UnwrapsTheRest | server/comms/router/internal_router.cpp:51-79 | bytes after the name do not matter, and an unsigned packet passes through with an empty name |
| Signing.SignPacket | server/comms/router/internal_router.cpp:81-90 | the three copies fill the buffer with the signed form |
| Signing.ExtractSignature | server/comms/router/internal_router.cpp:51-79 | unwraps a signed packet, passes any other through with an empty name |
| Files.FileRoundTrip | commons/file_manager/file.cpp:57-111 | data come back always, the name if and only if it holds no NUL |
| Files.SerializedLayout | commons/file_manager/file.cpp:74-94 | the place of every byte of a file: size, name, NULs up to 260, data |
| Files.OtherBytesDoNotMatter | commons/file_manager/file.cpp:96-111 | what follows the name's terminator or the data does not change what is read |
| Files.File.ToData | commons/file_manager/file.cpp:74-94 | the buffer is size, name array padded with NULs, data |
| Files.File.FromData | commons/file_manager/file.cpp:67-111 | the object takes name and data from the bytes |
| Files.File.ReadFile | commons/file_manager/file.cpp:17-39 | fails exactly when the file is missing, otherwise holds its bytes |
| EndToEnd.UploadReachesBackups | server/comms/router/internal_router.cpp:317-335 | serialize, frame, read in pieces, the master's handler, sign, frame, read in pieces, each backup's handler: master and backups store the client's bytes under the client's name for that user, and nothing else of a backup changes |
| Listing.ListDirectory | commons/file_manager/file_manager.cpp:31-71 | text and count are those of the regular entries, with the text for an empty folder; -1 for a directory that cannot be opened |
| Listing.ParseListing | server/comms/manager/manager.cpp:408-416 | the loop reads one name and skips four lines until nothing is left |
| Listing.ListingRoundTrip | server/comms/manager/manager.cpp:405-416 | parsing a non-empty listing recovers exactly the names in order if and only if no name holds a newline |
| Listing.ListingLines | commons/file_manager/file_manager.cpp:31-71 | line by line: for each file its name, its three labelled timestamps in order and an empty line; without files the text that says so |
| Sync.SyncFiles | server/comms/manager/manager.cpp:391-433 | one SYNC_DIR_ACCEPT_RESP per file of the listing, numbered in 16 bits under the true total and deserializing to that file, or the single empty one |
| Sync.Client.OnSyncPacket | client/main.cpp:61-106 | the file is written, and after what looks like the last one the whole directory is uploaded |
| Sync.Client.UploadAll | client/main.cpp:76-98 | one packet per file of the client's own listing, which the master's handler takes for the upload of that file |
| Sync.Client.OnBroadcast | client/main.cpp:133-154 | a broadcast upload is written, a broadcast delete removes the file it names |
| Sync.EndOfSyncDetected | client/main.cpp:73 | the last-packet test holds on the k-th of n packets if and only if k = n <= 65535 |
| Sync.RunOverlays | client/main.cpp:61-104 | while the answer comes in the client's directory fills up and only the true last packet sets off uploads |
| Convergence.SyncConverges | server/comms/manager/manager.cpp:405-431 | the client ends with the server's files plus its own others; the store that the master's handler makes of the packets the client sent holds the same files if and only if the server had 1 to 65535 files or the client had none of its own |
| Convergence.FirstSync | client/main.cpp:61-104 | the same with the real handler and the real client, from the request to the echo of the last upload; nobody else's files change |
| Handoff.Lossless | server/comms/router/router.cpp:60-68 | in every interleaving the connections accepted are those taken, in order, followed by at most one on its way |
| Handoff.Drains | server/comms/router/router.cpp:126-134 | a connection on its way can always be brought to the router |
| Handoff.EveryConnectionGetsThrough | server/comms/router/router.cpp:60-68 | from any reachable state some further steps bring everything accepted, and then any next connection, to the router |
| Slots.User.PushConnection | commons/user/user.cpp:30-41 | the first free slot, and no other, takes the connection, or the user is full and nothing changes |
| Slots.User.Disconnect | commons/user/user.cpp:43-54 | the first slot with that descriptor, and no other, is freed |
| Slots.User.GetActiveConnectionsCount | commons/user/user.cpp:56-67 | counts the slots in use |
| Slots.User.Broadcast | server/comms/manager/manager.cpp:368-389 | writes to exactly the descriptors in the first `count` slots but the excluded one |
| Slots.User.Dispatch | server/comms/manager/manager.cpp:93-113 | the idle connections in the first `count` slots get a handler, and no other |
| Slots.User.CloseAll | server/comms/manager/manager.cpp:435-447 | for every table: slot j is closed exactly if it is in use and, without the connections before it, more than j are left |
| Slots.ExceptIsFilter | server/comms/manager/manager.cpp:380-386 | what a broadcast leaves out is exactly the excluded descriptor, the others are kept slot by slot and in order |
| Slots.PushesFillFromFront | commons/user/user.cpp:30-67 | any run of pushes fills the slots from the front in order, up to the capacity, and the count is that length |
| Slots.BroadcastReachesAllIffPrefix | server/comms/manager/manager.cpp:377-386 | each active connection but the excluded one is written to once and nothing else, if and only if no free slot precedes an active one |
| Slots.DispatchReachesAllIffPrefix | server/comms/manager/manager.cpp:93-97 | every active connection is dispatched if and only if no free slot precedes an active one |
| Slots.CloseAllClosesAllIff | server/comms/manager/manager.cpp:440-446 | for every table of slots all connections are closed if and only if there are none, or just one and it is in the first slot |
| Slots.CloseAllClosesHalf | server/comms/manager/manager.cpp:440-446 | of k connections in front exactly the first half, rounded up, is closed |
| Slots.GapAfterLogout | commons/user/user.cpp:30-54 | two logins and the logout of the first leave a connection that is neither written to nor given a handler nor closed |

## Left out

- Sockets.Socket.ReadPacket: requires a payload below 2^31, because the payload loop counts in an int.
- Sockets.Socket.WritePacket: requires header plus payload below 2^31, because the number of bytes written is an int.
- Managers.Manager.HandleConnection: says nothing of what STOP_SERVER_REQ writes to other users, nor of a directory that cannot be made or opened although it is there.
- Signing.ExtractSignature: requires that the inner packet and a terminated name fit, because the code reads past the buffer otherwise.
- Files.File.FromData: requires size, name and data to lie within the payload, because the code is given no length to check against.
- Sync.SyncFiles: reads all names out of the listing and then sends, where the code does both in one loop.
- Convergence.SyncConverges: assumes no other operation on either directory while it runs; the client's file watcher is not modelled.
- Replication.ReplicaAgreement: one connection per user; two connections of one user can be broadcast and applied in different orders.
- Real sockets: connecting, accepting, sleeps, DNS and write errors; links are up and FIFO, and each write of a packet is one step.
- Failures other than the loss of the master; `broadcast_others` stops at its first error, which does not occur here.
- Records sent between a backup's accept and its JOIN_REQ: accepting and joining are one step of the master.
- The relaunch loop of server/main.cpp beyond the join it starts with: a relaunched backup is a new one with an empty login context.
- Several logins broadcast at once: the code broadcasts one at a time, the model allows any overlap between users.
- User names with a slash, which would make two users' directories overlap.
- A LOGIN_REQ sent on a connection that is already logged in, which backups would take for a login record.
- Memory management: leaks, dangling pointers, references invalidated by vector growth, uninitialised fields.
- `errno` left over from an earlier call in `create_directory`: it only turns one empty answer into another.
- The lock that stays held when a login is refused (server/comms/router/router.cpp:83-92).
- STOP_SERVER_REQ: it ends the server and changes no files.
- File names that are empty or hold a slash, which name directories.
- The client's other packet branches (client/main.cpp:107-132, 155-174): each writes or removes one file, or prints.
- The user interface, the logger, command lines, the UDP reconnection of clients, and unused code.
