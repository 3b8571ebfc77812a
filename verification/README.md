# DFI in Dafny

DFI is a peer-to-peer index of torrents. A peer publishes posts, other peers mirror them from the publisher or from any
seed, and peers find each other through a Kademlia-style table. This project models the parts of it whose correctness is
not visible in any single function, and proves what they promise, for all inputs and all runs.

| file | part of DFI |
|---|---|
| `Text.dfy`, `Posts.dfy` | decimal conversion, delimiter-terminated fields, the two textual forms of a post |
| `Pieces.dfy` | pieces of 1000 posts, their hashes, the stream parser |
| `PostStore.dfy` | the post table and its statements, batched insertion |
| `Collections.dfy` | hash lists and their verification |
| `Entries.dfy` | the text an entry's owner signs, its verification, and what the signature pins down |
| `Mirror.dfy` | a mirror session with any peer, which also supplies the entry, and any number of them |
| `Publisher.dfy` | adding posts and keeping the collection hash in step |
| `EndToEnd.dfy` | a publisher's run, the entries signed along it, and mirror sessions that go by them |
| `Addresses.dfy` | the XOR metric |
| `Buckets.dfy`, `Closest.dfy` | move-to-front buckets and the search for the closest peers, on values |
| `EntryStore.dfy`, `NetDb.dfy` | the entry database and the routing table over it, with the slices' arrays |
| `NetMap.dfy` | the map of who seeds for whom, over the entry database |
| `Handshake.dfy` | the handshake of connector and listener |
| `Resolve.dfy` | resolving an address with one shared depth budget |
| `Limiter.dfy` | the token-bucket limiter |

Conventions. SHA3-256 is a function parameter with 32-byte results. No function into 32 bytes is free of collisions, so
every statement that needs "no collision" names the two byte strings that must not collide. An Ed25519 signature is
symbolic: it is made with one key and speaks about one text, and the text is the concatenation the code really signs.
That nobody else signs under the publisher's key is a stated premise (`Unforged`), not built in.
gzip, msgpack, base58check and the transport are the identity. SQLite is its tables, without failures. What a remote
peer does is a parameter: the bytes it streams, the messages it sends, the answers it gives. Go's `int` is 64 bits wide
and its range is a condition where a number is printed and read back. A Go slice that is shifted in place while a loop
ranges over it is an array here, and the loop really sees the shifted elements.

Where the code does less than its comments say, the code is modelled and the exact condition is proved:

- A post survives the wire exactly when its text fields hold no `|` and its id is not -1 (`ParseLine`,
  `StreamSurvives`); without that condition two different posts have one hash input (`SeparatorAmbiguous`).
- `CreateCollection` builds the right hash list exactly for tables of at most 1000 posts, because `Collection.Add`
  compares a byte length with a piece number (`CreateCollection`).
- `AddPost` keeps the hash list in step exactly up to post 999, because row ids start at 1 (`RunSynced`,
  `NewPostSynced`).
- A mirror that already holds more than 1000 posts cannot be continued even from an honest peer: pieces are asked for
  from a later one and compared with slots from the first (`HonestCompletes`, `HonestRefused`).
- The comment on `InsertPieces` speaks of 100 pieces per transaction; the code commits after 99. The resulting table does
  not depend on it once the channel is ended (`InsertPieces`).
- `FindClosest` skips the second entry of every bucket of three or more other than the target's own, and on a full own
  bucket returns the last entry twice and the second not at all (`ShortSearchExact`, `FullSearchExact`,
  `VisitedComplete`). It works outward by bucket index on both sides, although everything after the target's bucket is
  nearer than anything before it, so it can return a farther address and leave out a nearer one (`NearestExact`,
  `FullNeighbourHides`).
- Inserting an address that is already known does not store its seed lists; the seed round trip is for first insertions
  (`FirstInsertRoundTrip`, `UpdateExact`).
- A mirror session goes by the entry the peer itself answers with, and that entry is verified only under the key inside
  it; a direct peer's address is compared, a seed's is not, and no key is. Nor does the signed text separate its fields,
  so one signature covers several entries. The table stays a prefix of the publisher's (`SessionSafe`, by `RootPinned`)
  when two things hold. The answer passes a check any caller could make (`Trusted`): it carries the key held for the
  publisher, that key stands only once in its signed text, and its root does not begin like a number. And the publisher
  signs only such roots, or an empty root with an empty seeding list (`SignsClearly`). Each part is needed: without the
  key check any key will do (`ForeignKeyUnsafe`); without the single occurrence, four addresses in the publisher's
  seeding list, which others choose, let its own signature cover another root (`RepeatedKeyUnsafe`); with an empty root
  two addresses do (`UnlistedUnsafe`); and with a root that begins like a number the boundary before it is open
  (`SignatureLeavesRootOpen`).
- A completed handshake shows that the owner of the key signed this side's cookie, not that the owner is the peer: any
  cookie is signed for whoever sends it (`CookieRelayed`). It never amounts to signing an entry (`CookiesAreNoEntries`).
- `resolveStep` would follow only the first of the closest entries a peer names, since every step ends with an entry or
  an error (`FirstRoundEnds`). In fact it follows none: `Client.Query` always gives one of the two, and the closest are
  never asked for (`ClosestNeverAsked`), and a search asks at most our own six closest entries (`ResolveExact`).

## Model

| member | source | states |
|---|---|---|
| Text.AtoiItoa | proto/client.go:481-491 | every 64-bit integer printed with Itoa is read back by Atoi |
| Text.AtoiSyntax | proto/client.go:481-491 | only an optional sign and a run of digits is read as a number |
| Text.JoinInjective | data/post.go:79-104 | separator-free fields are uniquely decodable from their joined text |
| Posts.HashFormDropsCounts | data/post.go:77-104 | the fields under the hash are those on the wire, in order, without the two counts |
| Posts.Write | data/post.go:77-104 | the sequence of writes emits exactly the fields in order, each followed by the separator, the two counts only when asked for, then the terminator |
| Pieces.Piece.Add | data/piece.go:47-60 | a post is stored and hashed unless the piece is over-full; what is hashed never includes the two counts |
| Pieces.Piece.Rehash | data/piece.go:70-81 | rehashing gives the hash of the stored posts in order |
| Pieces.ErrorReader.ReadString | data/errors.go:44-55 | what was left is the returned text, which holds no delimiter, then a delimiter, then what is left now; the read fails, and drops everything, exactly when no delimiter was left |
| Pieces.ReceivePieces | proto/client.go:493-560 | for every byte stream the nested loops build exactly the pieces of the parsing function, each with the hash of its own posts |
| Pieces.ReceivePost | proto/client.go:516-553 | one round reads a post, the sentinel, or finds the stream broken, as the parsing function says |
| Pieces.ParseLine | proto/client.go:516-553 | a written post is parsed back with all ten fields intact if and only if it is printable and not the sentinel |
| Pieces.MalformedIsZero | proto/client.go:481-491 | everything else is read as zero |
| Pieces.ParseWhole | proto/client.go:516-553 | any ten fields are a post, unless the first reads as the sentinel's id |
| Pieces.ParseShort | proto/client.go:516-553 | fewer than ten are none, however far the last one got |
| Pieces.CutStream | proto/client.go:506-559 | a stream that ends inside a post yields exactly the posts before it, cut into the table's pieces |
| Pieces.ParsedPrintable | proto/client.go:506-559 | whatever the stream, parsed posts hold no separator and no sentinel and no piece exceeds 1000 posts |
| Pieces.StreamSurvives | localpeerhandlers.go:363-367 | a table's stream is cut into exactly ceil(n/1000) pieces with posts 1000i+1 onwards, nothing lost or repeated, if and only if every post can be read back |
| Pieces.LinesInjective | data/post.go:77-104 | equal hash inputs mean equal posts in every field but the two counts |
| Pieces.LinesIgnoreCounts | data/post.go:90-95 | the two counts never enter the hash input |
| Pieces.SeparatorAmbiguous | data/post.go:79-104 | a separator in a text field can move to the next field without changing the hash input |
| PostStore.Database.InsertPost | data/database.go:181-198 | insert-or-ignore, and the row id reported |
| PostStore.Database.InsertPieces | data/database.go:106-178 | an ended channel commits the table of one-at-a-time insertion wherever the batches fall; an unended one leaves exactly the full batches |
| PostStore.Database.QueryPiece | data/database.go:313-344 | the piece hashed, and stored on request, is the rows the paging query selects |
| PostStore.Database.SetSeeders | data/database.go:437-448 | only the one count of the one row changes |
| PostStore.Database.SetLeechers | data/database.go:450-461 | only the one count of the one row changes |
| PostStore.InsertAllValid | data/sql.go:27-63 | any insertions keep ids 1..n and unique info hashes and never move or change a stored row |
| PostStore.InsertPrefix | data/database.go:109-178 | inserting the first j rows of a table over its first m gives the longer prefix |
| PostStore.SelectSlice | data/sql.go:92-94 | on a valid table the query returns the rows after the given one, up to the limit, all of them for a negative one |
| PostStore.SelectChunk | data/sql.go:92-94 | the paging query for piece i returns posts 1000i+1 to 1000(i+1) |
| PostStore.FlattenChunks | data/database.go:315-344 | the first k pieces hold exactly the first 1000k posts |
| Collections.Collection.Add | data/collection.go:105-115 | which slot is written, when the list grows, and when the slot is outside the slice |
| Collections.AddSlotMeans | data/collection.go:105-115 | adding appends the digest, replaces exactly its slot, or changes nothing past the end of the list |
| Collections.Collection.Rehash | data/collection.go:128-135 | slot-wise hashing is hashing the whole slots as one |
| Collections.CreateCollection | data/collection.go:56-75 | the list covers every piece if and only if there are at most 1000 posts; the running root always does |
| Collections.Verify | proto/messages.go:58-70 | slot-wise verification accepts if and only if the root is the hash of the first `size` slots, and panics if and only if there are fewer |
| Collections.HonestListAccepted | localpeerhandlers.go:307-310 | the reply built from a list of whole slots is accepted for the root Rehash and Hash give it |
| Collections.AcceptedListGenuine | proto/messages.go:58-70 | an accepted message has the publisher's number of slots and the publisher's bytes, or exhibits a collision |
| Entries.RuneDecodes | dht/entry.go:116 | the rune signed for a port decodes to it, or to the replacement character where there is none |
| Entries.OneSignatureOneText | dht/entry.go:197-206 | two verified entries with one signature have one key and one signed text |
| Entries.ChangeRefused | dht/entry.go:197-206 | a verified entry with any one signed field changed does not verify |
| Entries.SignatureLeavesRootOpen | dht/entry.go:91-129 | for every verified entry whose time has two digits or more and whose root does not begin with the last of them, there is another verified one under the same signature with a different 32-byte root |
| Entries.RootPinned | dht/entry.go:91-129 | of two entries with one signed text and one key, a 32-byte root is the same in both when the key stands once in the text, the first root does not begin like a number, and the second does not either or is empty with nothing after it |
| Entries.DigestInSeeding | dht/entry.go:91-129 | for every entry with an empty root and every digest, two seeded addresses make one signature cover that digest as the root |
| Entries.KeyInSeeding | dht/entry.go:91-129 | for every entry of at most 252 signed bytes and every digest, four seeded addresses make one signature cover that digest as the root, under the same address and key, and then the key stands twice |
| Mirror.HandlePiece | localpeerhandlers.go:360-370 | the bytes sent are what the results on honest peers speak of: on a valid table the rows after 1000 id, at most id + 1000 length of them, in wire form, then the sentinel |
| Mirror.HonestRest | localpeerhandlers.go:360-370 | a request for all pieces from a stored one on is answered with the whole rest of the table |
| Mirror.CheckPieces | peer.go:499-516 | exactly the pieces before the first mismatch are handed over |
| Mirror.GetEntry | peer.go:252-275 | an answer is accepted if and only if it verifies under its own key and, when the peer is asked directly, carries the address asked for; what an accepted entry's fields and signature are is spelled out |
| Mirror.ChangeNotFetched | peer.go:252-275 | a verified entry with another root or post count is accepted by neither branch |
| Mirror.Mirror | peer.go:413-535 | outcome and resulting table of a session, for every entry answered, every message and every stream |
| Mirror.SessionExact | peer.go:424-516 | when a session ends in each of its ways, up to date if and only if an accepted list meets an equal post count, a mismatch at the first slot that differs; only complete and mismatch store anything |
| Mirror.EarlyMismatch | data/database.go:109-178 | a mismatch at piece 99 or before leaves the table as it was, whatever matched |
| Mirror.SinceMeans | peer.go:480-487 | the first piece asked for is the one the last stored post is in |
| Mirror.PieceGenuine | peer.go:500-506 | an accepted piece is the publisher's piece up to the two counts |
| Mirror.DownloadSafe | peer.go:457-516 | going by the entry of any state the publisher has been in, however old, keeps a mirror of the latest state one; complete, it holds that state; mismatched at piece k, the first 99000 ((k - 1) / 99) posts; or what it had, if that is more |
| Mirror.SessionSafe | peer.go:413-535 | whatever a peer answers, lists and streams: if the answer passes the check against the key held for the publisher, the mirror stays a prefix of the publisher's table, and a completed session holds at least the state whose root it went by |
| Mirror.ForeignKeyUnsafe | peer.go:424-445 | under every key and for every address there is an entry both branches accept with which the session completes and the table is no longer a prefix |
| Mirror.RepeatedKeyUnsafe | localpeer.go:579-594 | under the publisher's own key, address and signature there is such an entry too, once it is seeding four chosen addresses; the key then stands twice in the text |
| Mirror.UnlistedUnsafe | localpeer.go:579-594 | and, while it signs an empty root, once it is seeding two chosen addresses, unless the mirror holds exactly as many posts as the entry counts |
| Mirror.SessionKeeps | peer.go:413-535 | no session rewrites, moves or drops a stored row |
| Mirror.WholeMirrorIdle | peer.go:476-478 | a whole mirror is unchanged by every further session whose answer passes the check |
| Mirror.MirrorAlwaysPrefix | peer.go:413-535 | after any sequence of sessions with any peers whose answers pass the check, going by any of the publisher's signed texts, old or new, in any order, the mirror is a prefix of the latest table |
| Mirror.HonestPieces | localpeerhandlers.go:363-367 | an honest stream matches the publisher's list in every slot |
| Mirror.HonestCompletes | peer.go:480-516 | with at most 1000 posts stored an honest peer completes the mirror, with all ten fields when it started empty |
| Mirror.HonestRefused | peer.go:482-506 | with more, an honest peer is refused at the first piece and nothing is stored |
| Mirror.MirrorHashes | data/database.go:315-344 | a whole mirror's own pieces have the publisher's hashes |
| Publisher.LocalPeer.AddPost | localpeer.go:265-298 | the new table, list, root and post count; a title over 140 bytes or a date in the future changes nothing, and an out-of-range slot leaves list and root |
| Publisher.RunTable | localpeer.go:265-298 | after any run the table holds the first admitted posts of their info hashes in order, every field as given, ids by position, counts as last set, and the post count is that of all admitted posts |
| Publisher.FirstsDistinct | data/sql.go:27-63 | those posts lose no info hash and repeat none |
| Publisher.RootOfList | localpeer.go:281-288 | in every run the collection hash is that of the list's whole slots |
| Publisher.LocalPeer.SetSeedLeech | commandserver.go:637-647 | the row with that id has the given seeders and leechers, and no other row changes |
| Publisher.RunSynced | localpeer.go:265-298 | in every run, below 1000 posts list and root are those of the table; above, the list never covers every piece |
| Publisher.NewPostSynced | localpeer.go:276-288 | a new post leaves the list in step if and only if fewer than 1000 posts are then stored |
| EndToEnd.PublishedPostsArrive | peer.go:413-535 | any publishing run below 1000 readable posts arrives whole at a new mirror, directly or through a seed: the posts as given, with the counts last set |
| EndToEnd.RunGrows | localpeer.go:265-298 | every state of a run is, up to counts, a prefix of every later one |
| EndToEnd.SignedIsGenuine | localpeer.go:265-298 | below 1000 posts the entry signed at any point of a run names the hash list of a prefix of the final table |
| EndToEnd.PublishedPostsProtected | peer.go:413-535 | after any sessions with any peers whose answers pass the check, going by texts the publisher signed at any point of its run, a mirror holds a prefix of its final table |
| EndToEnd.UpToDateIsWhole | peer.go:476-478 | a session that stops as up to date, by the entry of a state of a run, holds all of that state's posts |
| Addresses.Xor | dht/address.go:171-180 | the loop computes the byte-wise XOR |
| Addresses.Less | dht/address.go:160-169 | Less is the strict order of the big-endian numbers |
| Addresses.LeadingZeroes | dht/address.go:182-196 | the nested loops return the first set bit, or the last index |
| Addresses.ZeroesBracket | dht/address.go:182-196 | r leading zeroes of a nonzero n-bit distance mean 2^(n-1-r) <= value < 2^(n-r) |
| Addresses.DistanceMetric | dht/address.go:171-180 | XOR distance is zero only on equality, symmetric, and satisfies the triangle inequality |
| Addresses.OwnBucketNearer | dht/netdb.go:585-590 | everything in the target's own bucket is strictly nearer than anything outside it, the last bucket included |
| Addresses.LaterNearer | dht/netdb.go:592-637 | everything in a bucket after the target's is strictly nearer than anything in a bucket before it |
| Addresses.EarlierInOrder | dht/netdb.go:592-637 | of two buckets before the target's, everything in the later one is strictly nearer |
| Buckets.TableIsLru | dht/netdb.go:189-223 | after every history of uses each bucket is the 20 most recently used distinct addresses of its own part of it |
| Buckets.NewestInOrder | dht/netdb.go:189-223 | most recently used means ordered by the position of the last use |
| Buckets.TableGood | dht/netdb.go:189-223 | buckets are duplicate-free, at most 20 long, and hold only addresses of their own index |
| Buckets.TouchAllPermutes | dht/netdb.go:439-444 | using addresses that are present only permutes a bucket |
| Buckets.VisitedComplete | dht/netdb.go:602-614 | a loop that uses each entry of the bucket it ranges over sees all of them if and only if there are at most two |
| Buckets.TwoPassesSeeAll | dht/netdb.go:599-633 | a second pass sees what the first one skipped |
| Closest.SearchPermutes | dht/netdb.go:566-638 | a search returns at most 20 results and leaves every bucket a permutation of itself |
| Closest.SearchFinds | dht/netdb.go:592-637 | every result is something the walk can show, and unless there are 20 results everything it can show is among them |
| Closest.ShortSearchExact | dht/netdb.go:582-638 | a search with fewer than 20 results returns an address of the table if and only if it is not a skipped second entry |
| Closest.FullSearchExact | dht/netdb.go:588-590 | what a full own bucket yields, in order |
| Closest.FullSearchNearest | dht/netdb.go:585-590 | with a full own bucket every result is nearer than every table address outside that bucket |
| Closest.SearchOutward | dht/netdb.go:582-638 | for some gap, everything that buckets within it can show is returned, and every result is at most one bucket further out |
| Closest.NearestExact | dht/netdb.go:592-637 | a result is nearer than a left-out address of another bucket, not both after the target's, if and only if it is not the case that the result lies before the target's bucket and the other after it |
| Closest.NothingLaterNearest | dht/netdb.go:592-637 | with nothing stored after the target's bucket, every result is nearer than every left-out address of another bucket |
| Closest.FullNeighbourHides | dht/netdb.go:592-637 | a full bucket before an own one of fewer than ten hides everything after it, all of it nearer than the last result |
| EntryStore.SeedsDual | dht/sql.go:161-176 | b is among the seeds of a if and only if a is among what b is seeding |
| EntryStore.SeedsDistinct | dht/sql.go:75-83 | neither list repeats an address |
| EntryStore.LinkAllKeeps | dht/netdb.go:266-298 | linking keeps the store valid and succeeds if and only if every address is known |
| EntryStore.LinkAllStopsAt | dht/netdb.go:266-298 | with the first unknown address in pair m, exactly the pairs before it are linked |
| EntryStore.InsertKeeps | dht/netdb.go:334-364 | inserting keeps the store valid and known addresses known |
| EntryStore.FirstInsertRoundTrip | dht/netdb.go:334-364 | a first insertion with known seeds is read back with the same fields and the same two sets, self-links aside |
| EntryStore.FirstInsertKeepsFields | dht/netdb.go:334-364 | a first insertion leaves every other entry's fields alone, whether or not all seeds could be linked |
| EntryStore.FirstInsertOthers | dht/netdb.go:266-298 | and another entry's lists gain the new address exactly when the new entry names it on the other side, and nothing else |
| EntryStore.UpdateExact | dht/netdb.go:347-355 | inserting a known address replaces its fields only: seed lists and all other entries are read back unchanged |
| NetDb.NetDB.constructor | dht/netdb.go:58-71 | 160 empty buckets over an empty store |
| NetDb.NetDB.InsertIntoTable | dht/netdb.go:189-223 | the bucket becomes the move-to-front of itself in a new array, and the old array is left shifted |
| NetDb.NetDB.Query | dht/netdb.go:397-445 | a known address yields its entry and moves to the front; every table address keeps its row |
| NetDb.NetDB.QueryBucket | dht/netdb.go:600-614 | which entries a loop over a bucket queries, given the shift under it, and the order it leaves |
| NetDb.NetDB.FindClosest | dht/netdb.go:582-638 | results and table after a search; every result is an entry, never nil |
| NetDb.NetDB.InsertSeed | dht/netdb.go:300-330 | links two known addresses, once, and fails without change otherwise |
| NetDb.NetDB.InsertEntrySeeds | dht/netdb.go:266-298 | links up to the first unknown address |
| NetDb.NetDB.Insert | dht/netdb.go:332-364 | an entry that does not verify changes nothing; otherwise table and store after the insertion, and the table never gets ahead of the store |
| NetMap.StoreClosed | dht/sql.go:161-176 | every address a stored entry is seeding has an entry itself, in every valid store |
| NetMap.GraphMeans | dht/sql.go:161-176 | the graph walked is the store's: stored names, and x seeding y if and only if x is among the seeds of y |
| NetMap.CreateNetMap | netmap.go:48-101 | what one call adds to the shared maps and returns: new nodes complete and reachable, links justified, each listed once |
| NetMap.NetworkMap | commandserver.go:649-662 | over any valid store and from empty maps: every reachable peer once, the root once more, every link exactly once, every endpoint a node; beyond the root, links are exactly the seed relation between reachable peers |
| Handshake.AnyPeerAuthenticated | proto/handshake.go:39-139 | whatever the peer sends, a side that completes holds a verified entry and its signature over the side's own cookie |
| Handshake.ListenerExact | proto/handshake.go:15-139 | a listener completes if and only if the peer sends a verified entry, that key's signature over the cookie, and Ok where one is due; it then holds that entry and those capabilities |
| Handshake.ConnectorExact | proto/streammanager.go:122-155 | a connector ignores every refusal of its own half and completes if and only if Ok, a verified entry and that key's signature over its cookie follow |
| Handshake.CookiesAreNoEntries | proto/handshake.go:195-198 | no signature a side writes in a handshake verifies an entry |
| Handshake.CookieRelayed | proto/handshake.go:101-139 | a listener completes, holding an owner's entry, on three messages the owner wrote to someone else |
| Handshake.NoDeadlock | proto/streammanager.go:122-155 | in every interleaving of two honest peers reads find the kind they expect, nobody fails, and one side can always move until both are done |
| Handshake.BothAuthenticated | proto/handshake.go:15-36 | when both are done exactly 13 messages passed and each holds the other's entry, capabilities and signature |
| Resolve.ResolveStep | peermanager.go:434-489 | the recursion with its loop over the closest entries does what the step function says, and steps taken plus remaining depth is always 6 |
| Resolve.FirstRoundEnds | peermanager.go:474-486 | no step ends with neither entry nor error, so the loop over the closest entries never reaches a second round |
| Resolve.ClosestNeverAsked | peermanager.go:457-468 | with Client.Query's answers a step ends at its own peer: that peer's entry, or an error |
| Resolve.Resolve | peermanager.go:375-432 | at most 6 steps in all, and a result carries the requested address |
| Resolve.LimitMeansExhausted | peermanager.go:406-414 | giving up on the budget means that none of the peers asked, down to the last step of the budget, named the address |
| Resolve.ResolveExact | peermanager.go:406-431 | with Client.Query's answers: resolved if and only if one of the first six of our n closest entries names the address, by the first that does, to a verified entry; out of budget if and only if n > 6 and none of the six does |
| Resolve.FoundWhenAnswered | peermanager.go:406-429 | with enough candidates left, an answer that names the address is found |
| Limiter.NewLimiter | util/limiter.go:41-64 | the bucket starts full or empty as asked |
| Limiter.Conservation | util/limiter.go:52-69 | over every run tokens stay within the burst, every tick is spent, kept or dropped, every wait completes or is blocked |
| Limiter.WindowBound | util/limiter.go:35-69 | in every window completed waits are at most the burst plus its ticks |

## Left out

- HTTP routes, commands, configuration, Tor and NAT: plumbing over libraries.
- Full-text search, suggestions, popular and recent posts: orderings done inside SQLite.
- SQLite failures and its column affinities: statements are modelled as succeeding on exact values.
- The No message and the close that follow a refused handshake: the refusing side only stops.
- I/O failures and timeouts: a read in the handshake and a request in a mirror session always get their bytes.
- Address.Encoded: a cached text form is taken to agree with the raw address it was made from.
- LoadTable and SaveTable: the routing table is taken to start empty, not from a file.
- SeedManager.findSeeds and peer eviction in SetPeer: they do not compute what their comments promise.
- Heartbeat, announce and explore loops, and Limiter.Stop: wall-clock loops without a safety claim.
- CreateNetMap: an address without an entry is dereferenced as nil by the code. A store never lists one; the list of the entry walked from, which need not be stored, is required not to.
- Entry.Verify: an address of another length than 20 is excluded by its type, and a key longer than 32 bytes is refused where the library panics.
- Resolve.Resolve: storing the entry that was found.
- Mirror.SessionSafe: promises nothing for roots whose first byte is a digit or '-', about one digest in twenty-three, because the signed text then does not say where the numbers end.
- Mirror.Mirror: the inserter's goroutine is taken to have consumed what it was sent; saving the list to disk, keeping the entry in the routing table and registering as a seed do not touch the table.
- AddSeeding: not a step of a publisher's runs; the entries signed along a run may list whatever addresses `SignsClearly` allows.
- Publisher.LocalPeer.AddPost: signing and saving the entry after the hash is set.
- Piece requests for other ranges than a session makes, and AddMeta, which changes hashed text after hashing.
