# Hamlaneh: verified models of the hard parts

Hamlaneh is a self-hosted team messenger: a Go server and a set of build tools.
This project models the parts of it whose correctness is not visible in any one
function, in Dafny 4.11, and proves what those parts are for. Every statement
below is for all inputs, all runs or all interleavings unless it says otherwise.

| files | what they model |
|---|---|
| `Jpeg.dfy`, `Png.dfy`, `WebP.dfy`, `Images.dfy` | the byte-level metadata strippers, as one-pass walks proved equal to parse, filter, print |
| `Tracing.dfy`, `Contour.dfy`, `ContourKeys.dfy` | marching squares: the segment graph is 2-regular and simple, and its traces partition the segments |
| `Rdp.dfy`, `RdpHalting.dfy` | Ramer-Douglas-Peucker and its closed-loop form, and exactly when it halts |
| `Outlines.dfy`, `OutlineTracing.dfy` | the older pixel-outline tracer and exactly when its guard loses an outline |
| `Decimal.dfy`, `Audit.dfy`, `AuditChain.dfy`, `AuditPages.dfy` | the tamper-evident audit chain, from byte framing to verification page by page |
| `Paging.dfy` | keyset paging and its cursors |
| `Welcomes.dfy`, `Mls.dfy` | the MLS delivery service: one server, many clients |
| `Attachments.dfy`, `Conversation.dfy`, `Authorship.dfy`, `Served.dfy` | conversations under concurrent requests: encryption mode, idempotent sends, final deletion, whose words a message holds, and that what may be done is done |
| `Visibility.dfy`, `RoomChanges.dfy`, `Noninterference.dfy` | every channel-scoped operation: whose rows and memberships it changes and to what, what somebody outside a channel can learn from one request, and over whole runs in which everybody acts |
| `Sso.dfy`, `SsoLadder.dfy` | concurrent single sign-on callbacks, and what each rung of the sign-in ladder comes to |
| `KeyFile.dfy`, `FirstAdmin.dfy` | what concurrent first starts agree on |
| `Calls.dfy`, `FileSign.dfy` | call announcements and signed file URLs |
| `Bytes.dfy`, `Sequences.dfy`, `Sorting.dfy` | shared vocabulary |

The store calls behind the handlers are those of `server/internal/storage`, each
one atomic; handlers interleave freely between them. Protocols are state machines
on values with a function for one step and one for a whole run; loops and
in-place updates of a single call are methods. Randomness, clocks and generated
ids are parameters of steps, so a statement holds for every choice of them.

What the proofs found out about the code:

- `mask_to_loops` compares its guard with an edge count that the same loop is
  using up. A mask with a single outline gets it back exactly when the outline has
  four to six edges; a two by two block is lost (`Outlines.OutlineKeptIff`,
  `Outlines.BlockIsLost`). Nothing calls the function today.
- `EnsureAdmin` counts and inserts in two steps. Concurrent starts on an empty
  table both make an administrator exactly when their configured usernames differ
  (`FirstAdmin.TwoAdminsIff`); with one username there is one account.
- Somebody outside a room can learn of it, without being invited, in three ways.
  An MLS group id is unique across all channels, so registering a group under a
  chosen id answers 409 exactly when some room holds it
  (`Visibility.CreateGroupIsBlindIff`, `Visibility.GroupIdLeaks`). A key-package
  claim in one room empties the pool another room's claim draws from
  (`Noninterference.PackageClaimShows`). And removing somebody who is not in a room
  changes nothing and still announces the room's id to them
  (`Noninterference.RemovalShows`). Nothing else shows in channel-scoped requests
  (`Noninterference.HiddenStepIsUnseenIff`, `Noninterference.HiddenStepIsSilentIff`,
  `Noninterference.RunsAreIndistinguishable`).
- A single sign-on callback that adopts an account by its verified email reads
  `active` before it links. An account deactivated in between is linked and signed
  in (`SsoLadder.DeactivatedWhileAdopted`); without that race a session always means
  an instant at which the account was linked and active (`Sso.SessionsAreActive`).
- `rdp` halts for every epsilon >= 0; for a negative one exactly when no list it
  comes to split is flat (`RdpHalting.HaltsIff`): three points on a line recurse for
  ever, three bent ones do not. Its callers pass 0.70.
- The RIFF size written by `stripWebP` is the low 32 bits of the length; it is
  right below 2^32 bytes.
- The audit entry's sequence number is outside the MAC, so what verification
  establishes is a slice of the honest log up to sequence numbers.
- A cursor key round-trips exactly when it carries no `|`.

## Model

| member | source | states |
|---|---|---|
| `JpegStripper.StripRefinesFilter` | server/internal/httpserver/images.go:197-234 | For every byte string: the layout of some JPEG comes back as that JPEG without APPn and comment segments, kept segments and the scan verbatim; anything that is no such layout comes back untouched |
| `JpegStripper.StripDropsMetadata` | server/internal/httpserver/images.go:197-234 | For every laid-out JPEG the output is laid out too, with the same scan and exactly the segments whose marker is outside 0xE0..0xEF and not 0xFE, in order; it is the input exactly when no segment has such a marker |
| `JpegStripper.StripIdempotent` | server/internal/httpserver/images.go:190-234 | Stripping twice is stripping once, never lengthens, and leaves no segment with a marker in 0xE0..0xEF or equal to 0xFE |
| `JpegStripper.PrintedIsParsed` | server/internal/httpserver/images.go:213-233 | The walk reads back exactly the segments any well-formed layout was printed from |
| `JpegStripper.StripJpeg` | server/internal/httpserver/images.go:197-234 | The method computes the stripping the lemmas are about, for every input |
| `JpegStripper.WalkSegments` | server/internal/httpserver/images.go:213-233 | The segment loop stays in bounds, terminates, and yields the emitted segments or the whole input |
| `PngStripper.StripRefinesFilter` | server/internal/httpserver/images.go:245-288 | For every byte string: a PNG layout comes back as its kept chunks verbatim, in order, with nothing after IEND; anything else comes back untouched |
| `PngStripper.StripKeepsRendering` | server/internal/httpserver/images.go:245-288 | For every laid-out PNG the output has exactly the chunks whose type starts with an upper-case letter or is tRNS, gAMA, cHRM or sRGB, in order, then the same IEND and nothing more; it is the input exactly when all chunks are such and nothing trailed |
| `PngStripper.StripIdempotent` | server/internal/httpserver/images.go:245-288 | Idempotent, never longer, and only chunks with an upper-case first letter or one of the four named types are left |
| `PngStripper.PrintedIsParsed` | server/internal/httpserver/images.go:264-287 | The walk reads back exactly the chunks any well-formed layout was printed from |
| `PngStripper.StripPng` | server/internal/httpserver/images.go:255-288 | The method computes that stripping for every input |
| `PngStripper.WalkChunks` | server/internal/httpserver/images.go:264-287 | The chunk loop stays in bounds, terminates, and yields the emitted chunks or the whole input |
| `WebPStripper.StripRefinesFilter` | server/internal/httpserver/images.go:293-348 | For every byte string: a RIFF/WEBP layout comes back without EXIF, XMP and ICCP chunks, every other chunk verbatim but for the VP8X flag byte, under a rewritten size; anything else comes back untouched |
| `WebPStripper.StripDropsMetadata` | server/internal/httpserver/images.go:305-348 | For every laid-out WebP the output has exactly the chunks other than EXIF, "XMP " and ICCP, in order, each verbatim except that a VP8X chunk loses the flag bits 2, 3 and 5 of its first byte |
| `WebPStripper.StripIdempotent` | server/internal/httpserver/images.go:293-348 | Idempotent, never longer, no EXIF, "XMP " or ICCP chunk left and no VP8X flag advertising one |
| `WebPStripper.StrippedSizeField` | server/internal/httpserver/images.go:345-347 | What follows the size field is 4 bytes plus the padded chunk lengths, and the field equals that count exactly when it is below 2^32 |
| `Bytes.EncodeLE32` | server/internal/httpserver/images.go:346-346 | The four bytes written are the ones that decode to the number |
| `WebPStripper.ClearFlagsBits` | server/internal/httpserver/images.go:306-341 | The three flags end clear and every other bit of the byte is as it was |
| `WebPStripper.PrintedIsParsed` | server/internal/httpserver/images.go:323-343 | The walk reads back exactly the chunks any layout was printed from, whatever its size field says |
| `WebPStripper.StripWebP` | server/internal/httpserver/images.go:305-348 | The method, with its two in-place patches, computes that stripping for every input |
| `WebPStripper.WalkChunks` | server/internal/httpserver/images.go:323-343 | The chunk loop stays in bounds, terminates, and yields the emitted chunks or gives up |
| `WebPStripper.AppendChunk` | server/internal/httpserver/images.go:335-341 | A kept chunk is appended with only its VP8X flag byte patched where it landed |
| `ImageStripper.StripIdempotent` | server/internal/httpserver/images.go:174-187 | For every media type and byte string, stripping is idempotent and never lengthens |
| `ImageStripper.StripImageMetadata` | server/internal/httpserver/images.go:174-187 | The dispatch gives each of the three media types its own stripper, and every other type back unchanged |
| `Contour.TableMatching` | tools/build_hamlaneh_logo_kit.py:145-181 | In all 16 cases and both saddle readings the case table matches the crossed edges of a cell in pairs |
| `Contour.CellPartner` | tools/build_hamlaneh_logo_kit.py:141-186 | A cell draws exactly one segment to each of its crossed edges, from another of them |
| `Contour.CellNone` | tools/build_hamlaneh_logo_kit.py:141-186 | A cell draws nothing to any other edge |
| `Contour.EdgeDegree` | tools/build_hamlaneh_logo_kit.py:129-186 | Every crossed lattice edge gets exactly two segment ends, one from each of its cells, to two different crossed edges |
| `Contour.UncrossedEdge` | tools/build_hamlaneh_logo_kit.py:129-186 | No segment ends on an edge the contour does not cross |
| `Contour.SegmentsAreTwoRegular` | tools/build_hamlaneh_logo_kit.py:129-186 | The segment graph is 2-regular and simple, on exactly the crossed edges |
| `Contour.SaddleFollowsTheMean` | tools/build_hamlaneh_logo_kit.py:176-181 | In a saddle cell a segment cuts a corner off exactly when that corner and the mean of the four samples lie on different sides of 127.5 |
| `ContourLoops.CrossingIsInterior` | tools/build_hamlaneh_logo_kit.py:133-159 | An interpolated crossing of integer samples is at least 0.001 from both ends of its edge |
| `ContourLoops.CrossingIsAtLevel` | tools/build_hamlaneh_logo_kit.py:133-136 | Between two samples on either side of the level, the crossing is where linear interpolation of the samples equals 127.5 |
| `ContourLoops.KeysAreDistinct` | tools/build_hamlaneh_logo_kit.py:129-199 | Rounding crossings to four decimals never merges two of them |
| `ContourLoops.KeysAreTwoRegular` | tools/build_hamlaneh_logo_kit.py:188-199 | The graph over rounded keys is 2-regular and simple too |
| `ContourLoops.NoTriangle` | tools/build_hamlaneh_logo_kit.py:129-186 | No three crossings are mutually joined |
| `ContourLoops.TraceIsKept` | tools/build_hamlaneh_logo_kit.py:233-238 | Every closed trace has at least four segments, so the length filter drops none |
| `ContourLoops.CellsAgree` | tools/build_hamlaneh_logo_kit.py:154-159 | The two cells of an edge compute the same crossing for it |
| `ContourLoops.DrawCell` | tools/build_hamlaneh_logo_kit.py:141-186 | The loop over a cell's table entry appends exactly the cell's segments |
| `ContourLoops.DrawSegments` | tools/build_hamlaneh_logo_kit.py:138-186 | The row-by-row scan collects the segments the graph lemmas are about |
| `ContourLoops.MarchingSquares` | tools/build_hamlaneh_logo_kit.py:129-238 | For every 0..255 integer field, every trace closes, none is dropped, the loops use every segment exactly once, and every vertex of every loop is the four-decimal rounding of the point of a lattice edge at which the interpolated padded field equals 127.5 |
| `LoopTracing.StartWalk` | tools/build_hamlaneh_logo_kit.py:208-216 | Taking an unvisited first edge of a settled 2-regular graph establishes the walk's invariant |
| `LoopTracing.StepWalk` | tools/build_hamlaneh_logo_kit.py:218-231 | Away from its start a walk has exactly one unvisited continuation, and taking it keeps the invariant |
| `LoopTracing.Walk` | tools/build_hamlaneh_logo_kit.py:213-231 | On a 2-regular graph the bounded loop always returns to its start, over unvisited edges each used once |
| `LoopTracing.TraceLoops` | tools/build_hamlaneh_logo_kit.py:206-231 | Together the traces use every edge of the graph exactly once |
| `LoopTracing.RepeatedSegment` | tools/build_hamlaneh_logo_kit.py:188-199 | A segment listed twice would show as a repeated neighbour |
| `LoopTracing.SegmentsAreEdges` | tools/build_hamlaneh_logo_kit.py:188-199 | In a 2-regular graph the segments are the edges, each listed once |
| `LoopTracing.BuildNeighbours` | tools/build_hamlaneh_logo_kit.py:191-199 | The dictionary holds each key's neighbours in segment order, keys in first-seen order |
| `LoopTracing.TraceSegments` | tools/build_hamlaneh_logo_kit.py:191-238 | On any segment list whose graph is 2-regular the traced loops use every segment exactly once |
| `Simplification.SplitIsInterior` | tools/build_hamlaneh_logo_kit.py:34-41 | Whenever rdp recurses with epsilon >= 0, its split index is strictly interior, so both halves are shorter |
| `Simplification.DeviationIsDistance` | tools/build_hamlaneh_logo_kit.py:21-33 | What rdp measures is the squared distance to the line through the two ends: no point of it is nearer and one is as near |
| `Simplification.RdpReducesIff` | tools/build_hamlaneh_logo_kit.py:34-41 | More than two points are reduced to their ends exactly when none is farther than epsilon from the line through the ends; otherwise the first farthest point is kept and both parts it makes are simplified on their own |
| `RdpHalting.FlatIffSplitAtStart` | tools/build_hamlaneh_logo_kit.py:34-41 | A list of more than two points is split at index 0 exactly when none is off the line through its ends, and is then handed on unchanged; any other is split strictly inside |
| `RdpHalting.NonNegativeHalts` | tools/build_hamlaneh_logo_kit.py:16-41 | For epsilon >= 0 a recursion as deep as the number of points computes rdp |
| `RdpHalting.NeverFlatHalts` | tools/build_hamlaneh_logo_kit.py:16-41 | Under a negative epsilon, where nothing flat is met, rdp returns all its points |
| `RdpHalting.HaltsIff` | tools/build_hamlaneh_logo_kit.py:16-41 | For every input and epsilon, rdp halts exactly when epsilon >= 0 or no list it comes to split is flat |
| `RdpHalting.ThreePoints` | tools/build_hamlaneh_logo_kit.py:16-41 | Under a negative epsilon three points halt exactly when the middle one is off the line |
| `Simplification.RdpSimplifies` | tools/build_hamlaneh_logo_kit.py:16-41 | The result is a subsequence with both endpoints and every dropped point is within epsilon of the line through the two kept points bracketing it |
| `Simplification.ClosedLoopSimplifies` | tools/build_hamlaneh_logo_kit.py:44-59 | Around a ring the same holds cyclically: the result closed at the anchor simplifies the closed ring |
| `Outlines.BoundaryIsBalanced` | tools/build_hamlaneh_logo_kit.py:248-259 | For every mask, as many boundary edges arrive at each lattice point as leave it |
| `Outlines.WalksPartition` | tools/build_hamlaneh_logo_kit.py:263-279 | Every boundary edge is taken by exactly one walk, whatever the guard does |
| `Outlines.FirstOpenIsCut` | tools/build_hamlaneh_logo_kit.py:263-279 | The first walk that does not close was cut by the guard and did not run out of edges |
| `Outlines.LastWalkIsShort` | tools/build_hamlaneh_logo_kit.py:269-279 | The last walk of any trace has at most six edges |
| `Outlines.WalkClosesIff` | tools/build_hamlaneh_logo_kit.py:269-279 | Over any edges, a walk whose steps would close after L of the E edges left closes exactly when 2(L - 1) <= E + 4 |
| `Outlines.OutlineKeptIff` | tools/build_hamlaneh_logo_kit.py:263-284 | A mask with one outline gets it back exactly when it has four to six edges; otherwise nothing is kept |
| `Outlines.RingIsOneCycle` | tools/build_hamlaneh_logo_kit.py:263-279 | Edges head to tail through distinct points are one cycle: no proper part of them is balanced |
| `Outlines.BlockIsLost` | tools/build_hamlaneh_logo_kit.py:269-284 | The outline of a two by two block is never kept, whichever edges the walks take |
| `OutlineTracing.MaskEdges` | tools/build_hamlaneh_logo_kit.py:241-259 | The scan files exactly the mask's boundary edges, keys in first-seen order and each list in the order of the calls |
| `OutlineTracing.WalkOnce` | tools/build_hamlaneh_logo_kit.py:264-279 | The inner loop takes one path of unused edges, each the last one filed under its point, and stops because it closed, was cut or stalled |
| `OutlineTracing.CountEdges` | tools/build_hamlaneh_logo_kit.py:260-260 | The sum of the list lengths is the number of edges |
| `OutlineTracing.FirstKey` | tools/build_hamlaneh_logo_kit.py:264-264 | A walk starts at the first key of the dictionary that has an edge left |
| `OutlineTracing.MaskToLoops` | tools/build_hamlaneh_logo_kit.py:241-286 | The method terminates on every mask and returns exactly the closed walks of four or more edges of the trace the source makes: first open key, last filed edge, the guard |
| `OutlineTracing.WalkIsDetermined` | tools/build_hamlaneh_logo_kit.py:265-279 | Where a walk starts, which edges it takes and where it stops are determined by the dictionary |
| `OutlineTracing.YieldIsDetermined` | tools/build_hamlaneh_logo_kit.py:263-286 | There is one such trace of a mask, so the result is a function of the mask, and every result about traces applies to it |
| `Decimal.FormatIntInjective` | server/internal/audit/audit.go:104-132 | Different integers have different decimal texts |
| `AuditFraming.FieldPrefix` | server/internal/audit/audit.go:200-221 | A framed field is self-delimiting: equal framings followed by anything are equal fields and equal rests |
| `AuditFraming.FramesInjective` | server/internal/audit/audit.go:104-132 | Equal framed sequences are equal field by field |
| `AuditFraming.OffsetThirtyTwo` | server/internal/audit/audit.go:104-132 | Byte 32 of the MAC input tells a 32-byte predecessor hash from an empty one |
| `AuditFraming.MacInputInjective` | server/internal/audit/audit.go:104-132 | The MAC input determines the predecessor hash and all eight fields, although the hash is unframed |
| `AuditChain.VerifyEach` | server/internal/audit/audit.go:166-180 | Accepts exactly when every row matches its hash, and otherwise names the first that does not |
| `AuditChain.Verify` | server/internal/audit/audit.go:134-147 | A filtered page is accepted exactly when each of its rows matches its hash |
| `AuditChain.VerifyRange` | server/internal/audit/audit.go:148-164 | Accepts exactly the unbroken chains, and otherwise names the first unsealed row or else the first unlinked one |
| `AuditChain.AppendKeepsHonest` | server/internal/storage/audit.go:85-139 | Every append keeps the log linked, sealed, and monotone in sequence number and time |
| `AuditChain.AppendRecords` | server/internal/storage/audit.go:101-139 | An append changes no earlier entry and adds one: the fields as recorded, stamped now or with the last entry's time when that is later, naming the last hash or 32 zero bytes |
| `AuditChain.HashesDistinct` | server/internal/audit/audit.go:134-164 | No two entries of an honest log carry the same hash |
| `AuditChain.VerifyRangeIsSlice` | server/internal/audit/audit.go:134-198 | Under an ideal MAC, rows with distinct sequence numbers, in any order, are accepted exactly when sorted they are a contiguous slice of the honest log |
| `AuditChain.AssumptionsCanBeMet` | server/internal/audit/audit.go:104-132 | The assumptions made of the MAC are met by some MAC and a log of two linked entries, so the results about it are not vacuous |
| `AuditChain.InnerDeletionIsCaught` | server/internal/audit/audit.go:148-164 | Removing any inner entry of a slice breaks verification at the entry that followed it |
| `Sorting.SortIgnoresOrder` | server/internal/audit/audit.go:190-198 | Sorting by distinct keys gives one result for every order of the input |
| `AuditPages.LogIsDisplayed` | server/internal/httpserver/audit_handlers.go:69-115 | An honest log read newest first has display order agreeing with chain order |
| `AuditPages.RunInChainOrder` | server/internal/audit/audit.go:190-198 | The chain order of a displayed run is the run backwards |
| `AuditPages.PagesCompose` | server/internal/httpserver/audit_handlers.go:69-115 | For every page limit, all pages of an unfiltered walk report chain_valid exactly when the whole walked table is one unbroken chain |
| `Paging.PageAt` | server/internal/httpserver/channel_handlers.go:165-192 | A page at any position shows the next rows and points exactly past them |
| `Paging.WalkIsListing` | server/internal/httpserver/channel_handlers.go:165-192 | For separator-free keys, following the encoded next_cursor from page to page yields every row exactly once in order, for every limit |
| `Paging.CursorRoundTrip` | server/internal/httpserver/channel_handlers.go:739-762 | A cursor decodes to what it encoded exactly when its key carries no separator |
| `Welcomes.CommitWelcomes` | server/internal/httpserver/mls_handlers.go:508-543 | Accepts exactly when counts are in range, blobs decode, and device ids are non-nil and distinct across all Welcomes together; hands blobs on in order |
| `Welcomes.AddDevices` | server/internal/httpserver/mls_handlers.go:527-534 | The inner loop extends the seen set, or stops at an id that spoils the whole request |
| `Welcomes.BadPrefix` | server/internal/httpserver/mls_handlers.go:519-534 | A nil or already seen id in any prefix makes the whole request unacceptable |
| `Mls.SelectIsRun` | server/internal/storage/mls.go:601-633 | A page of a complete commit log is the next epochs, without gap or repeat |
| `Mls.CatchUpReachesEpoch` | server/internal/httpserver/mls_handlers.go:379-426 | Repeated fetches reach the current epoch with every commit once and in order, for every page limit |
| `Mls.StepKeepsInv` | server/internal/httpserver/mls_handlers.go:379-489 | Every step of every party keeps: one commit per epoch 1..E, one accepted submission per commit, the Welcomes of accepted commits exactly the disjoint union of waiting, acknowledged and dropped ones, waiting ones for registered devices and dropped ones for devices that left, clients on contiguous runs of the log |
| `Mls.RunsKeepInv` | server/internal/storage/mls.go:516-580 | Those promises hold in every state of every run |
| `Mls.SubmitAnswers` | server/internal/storage/mls.go:516-580 | A submission is accepted exactly when the group exists, its epoch is the one named and every named device is registered to a member of the channel; each refusal has its own exact condition and changes nothing |
| `Mls.SubmitStores` | server/internal/storage/mls.go:516-580 | An accepted submission advances its group by its one commit and leaves waiting exactly one Welcome per named device, with the blob of the delivery that named it |
| `Mls.WelcomesAreForMembers` | server/internal/storage/mls.go:549-555 | In every run a Welcome starts waiting only through an accepted submission that carries it, for a device then registered to a member of its channel |
| `Mls.WelcomeWaits` | server/internal/storage/mls_backups.go:134-165 | A waiting Welcome stays until it is acknowledged or its device leaves the directory, which alone drops it |
| `Mls.RunExtends` | server/internal/storage/mls.go:516-580 | Along every run each log only grows at its end |
| `Mls.ClientsAgree` | server/internal/httpserver/mls_handlers.go:379-489 | Every client, from epoch 0 or from a Welcome of epoch e, holds the contiguous run of the log after the epoch it joined at, even with stale pages, and any two agree on every epoch both hold |
| `Mls.OneWinnerPerEpoch` | server/internal/httpserver/api.go:179-198 | Of two accepted submissions to a channel the later names a later epoch, so at most one naming a given epoch ever succeeds |
| `Mls.OneWelcomePerDevice` | server/internal/httpserver/mls_handlers.go:508-543 | An accepted commit leaves each device at most one Welcome |
| `Attachments.SendAttachmentIds` | server/internal/httpserver/message_handlers.go:256-277 | Accepts exactly at most ten distinct non-nil ids, and returns them as given |
| `Conversation.E2eeBody` | server/internal/httpserver/e2ee.go:48-133 | A write is kept exactly when the channel is plaintext and no envelope came, or it is encrypted, the content is empty and the envelope is within its bounds and decodes; what is kept has the requested epoch, the decoded bytes and the declared mentions |
| `Conversation.E2eeAtBirth` | server/internal/httpserver/e2ee.go:134-164 | Birth encrypts exactly when the mode is not compliance, and refuses exactly a disagreeing assertion |
| `Conversation.RunsKeepInv` | server/internal/httpserver/message_handlers.go:150-400 | The conversation invariant holds in every state of every interleaving of send, edit, delete, create, open and mode-switch tasks |
| `Conversation.ModeIsKept` | server/internal/httpserver/message_handlers.go:182-196 | No run leaves words on an encrypted channel, an undeleted encrypted message without an envelope, or an envelope on a plaintext channel |
| `Conversation.FlagIsFixed` | server/internal/httpserver/channel_handlers.go:198-348 | A channel's encryption flag never changes after birth |
| `Conversation.DeletionIsFinal` | server/internal/httpserver/message_handlers.go:287-400 | Once a delete commits the row never changes again, however early an edit started |
| `Conversation.AnnouncedOnce` | server/internal/httpserver/message_handlers.go:187-239 | Each (channel, author, client id) is stored once; each message is announced created and deleted at most once, and only after it happened |
| `Conversation.StrictStaysStrict` | server/internal/httpserver/admin_handlers.go:290-311 | Starting from strict mode no run adds a plaintext conversation |
| `Authorship.RunAccounted` | server/internal/httpserver/message_handlers.go:150-400 | In every run each row is accounted for by requests: new rows by a send of their author, bodies by sends or edits of the author, deletions by the author or an administrator |
| `Authorship.WordsAreTheAuthors` | server/internal/httpserver/message_handlers.go:279-346 | In every run a message that is not deleted holds, field by field, the body of a send or an edit its own author requested as a member of the channel and within the bounds of the request, or the one it had before; administrators included, nobody else's words get in |
| `Authorship.DeletionsAreAuthorised` | server/internal/httpserver/message_handlers.go:354-400 | In every run a message is deleted only if its author, or an administrator, requested it as a member of the channel |
| `Served.SendIsServed` | server/internal/httpserver/message_handlers.go:150-239 | A member's send within its bounds, under a client id not used before, ends as exactly one new row with that body and one announcement |
| `Served.RetryIsServedOnce` | server/internal/httpserver/message_handlers.go:210-228 | The same send again stores nothing and announces nothing |
| `Served.EditIsServed` | server/internal/httpserver/message_handlers.go:287-346 | The author's edit within its bounds replaces exactly that row's body and is announced |
| `Served.StrangersEditIsRefused` | server/internal/httpserver/message_handlers.go:296-299 | Anybody else's edit ends without a change or an announcement |
| `Served.DeleteIsServed` | server/internal/httpserver/message_handlers.go:364-400 | The author's delete, or an administrator's, empties exactly that row and is announced |
| `Served.CreateIsServed` | server/internal/httpserver/channel_handlers.go:198-282 | A conversation is born with its creator alone, encrypted exactly when the mode is not compliance |
| `Served.OpenIsServed` | server/internal/httpserver/channel_handlers.go:284-348 | A direct message is born between its two people, once for a pair |
| `Visibility.StrangerLearnsNothing` | server/internal/httpserver/channel_handlers.go:79-143 | For every channel-scoped operation and body, a caller outside the channel, admin or not, gets the answer of a channel that does not exist, and nothing changes or is announced |
| `Visibility.ActTouches` | server/internal/authz/channels.go:94-161 | What any request touches: it takes a key package or adds a member exactly under stated conditions, and adds to its room at most the one unique key it names |
| `Visibility.ActTells` | server/internal/httpserver/mls_handlers.go:480-489 | Of people not in the room a request tells by name exactly those it invites or removes |
| `RoomChanges.RequestChangesOnly` | server/internal/authz/channels.go:94-161 | A request leaves every other room as it is, and every row of its own room but the one its caller sends, edits as its author, or deletes as its author or as an administrator; whatever else it changes in the room is named by its operation |
| `RoomChanges.SendHandled` | server/internal/httpserver/message_handlers.go:150-239 | A member's send under an unused id is refused exactly when its body may not be sent there, answered with the stored message exactly when its author used the client id before, and otherwise stored as one new row of that author with that body |
| `RoomChanges.EditHandled` | server/internal/httpserver/message_handlers.go:287-346 | For every caller, message and body: out of reach is the missing channel's answer, a message of somebody else is refused to everyone, a deleted one conflicts, and otherwise exactly that row takes exactly that body |
| `RoomChanges.DeleteHandled` | server/internal/httpserver/message_handlers.go:364-400 | For every caller and message: the author, or an administrator in the room, empties exactly that row and announces it, anybody else is refused, and a deleted row is answered alike without a change |
| `RoomChanges.DeleteAgain` | server/internal/httpserver/message_handlers.go:375-380 | A second delete by the same caller gets the same answer, changes nothing and announces nothing |
| `RoomChanges.MembershipIff` | server/internal/httpserver/channel_handlers.go:473-660 | After any request somebody is in the room exactly when they were and it does not remove them, or it invites them, with the conditions for both spelled out |
| `RoomChanges.SentIsNew` | server/internal/httpserver/message_handlers.go:187-228 | A send under an id that the room already holds changes nothing |
| `Visibility.RequestIsBlind` | server/internal/httpserver/message_handlers.go:402-436 | A request of the observer, or in a room the observer is in, against two states that differ only in other rooms: the observer cannot tell them apart exactly when the key it gets as far as inserting, if any, clashes alike with those rooms |
| `Visibility.PlainRequestIsBlind` | server/internal/httpserver/mls_handlers.go:617-641 | Every operation that names no unique key is answered alike |
| `Visibility.CreateGroupIsBlindIff` | server/internal/storage/mls.go:376-395 | Registering a group is answered alike exactly when the room is not encrypted or has a group, or the chosen id is held in view, or is held by hidden rooms in both states or in neither |
| `Visibility.GroupIdLeaks` | server/internal/storage/mls.go:383-395 | Two states that look alike, one with a hidden room holding a group id, answer 409 and 201 to that id |
| `Noninterference.HiddenStepIsUnseenIff` | server/internal/httpserver/mls_handlers.go:247-289 | Another user's request in a room the observer is not in leaves everything the observer can see as it was, exactly when it takes no key package and does not invite the observer |
| `Noninterference.HiddenStepIsSilentIff` | server/internal/httpserver/channel_handlers.go:473-660 | Such a request announces something to the observer by name exactly when it invites or removes the observer; a Welcome reaches members of the room only |
| `Noninterference.SeenStepKeeps` | server/internal/httpserver/channel_handlers.go:79-143 | A step the observer sees, from two states that agree in view and on the keys asked for, is seen alike and leaves them agreeing |
| `Noninterference.PurgedRunLooksAlike` | server/internal/httpserver/channel_handlers.go:79-143 | Over every run of everybody's requests, without hidden steps that claim a package, invite or remove the observer or take a key asked for, the observer gets what the run without its hidden steps gives, and it ends in agreeing states |
| `Noninterference.HiddenStepsDoNotShow` | server/internal/httpserver/channel_handlers.go:79-143 | On such a run the observer's answers are those of the run in which the hidden steps never happened |
| `Noninterference.RunsAreIndistinguishable` | server/internal/httpserver/mls_handlers.go:617-641 | Two worlds that differ in rooms the observer is not in, with different hidden steps and the same others, give the observer the same to the end |
| `Noninterference.PackageClaimShows` | server/internal/storage/mls.go:183-192 | A claim in a hidden room of somebody's last package shows in the observer's own claim |
| `Noninterference.RemovalShows` | server/internal/httpserver/channel_handlers.go:575-660 | Removing somebody who never was in a room leaves all they can see as it was and announces the room's id to them |
| `Sso.IdentityOnOneAccount` | server/internal/storage/oidc.go:30-108 | In every state of every run no (issuer, subject) sits on two accounts |
| `Sso.SessionsAreLinked` | server/internal/httpserver/oidc_handlers.go:306-363 | A session is minted only for an account the identity was linked to at some instant of that call |
| `Sso.SessionsAreActive` | server/internal/httpserver/oidc_handlers.go:306-363 | In every run a session is minted only by an unchallenged step, and only for an account that at one instant of the call was linked and active, unless the call adopted it as active and it was deactivated before it was linked |
| `SsoLadder.DeactivatedWhileAdopted` | server/internal/httpserver/oidc_handlers.go:434-479 | The exception happens: a run in which an account deactivated between the email lookup and the link is signed in without ever being linked and active |
| `SsoLadder.LinkedSignsIn` | server/internal/httpserver/oidc_handlers.go:306-363 | A callback without link intent whose identity is linked mints the session of that account exactly when it is active and not challenged, and changes nothing else |
| `SsoLadder.VerifiedEmailAdopts` | server/internal/httpserver/oidc_handlers.go:386-479 | A verified email naming one active directory-managed account without a link adds exactly that link and signs in unless challenged |
| `SsoLadder.OtherEmailIsRefused` | server/internal/httpserver/oidc_handlers.go:434-479 | Any other account of the email is left as it is and nobody is signed in |
| `SsoLadder.FirstFreeNameIsMade` | server/internal/httpserver/oidc_handlers.go:489-572 | The first free one of the twenty derived names becomes the new account, with the claimed email and the identity linked to it |
| `SsoLadder.IntentLinks` | server/internal/httpserver/oidc_handlers.go:579-622 | A callback with the state and secret of a pending request uses it up, links the requesting account exactly when that is active and unlinked and the identity is free, and signs nobody in |
| `Sso.BirthsAreProvisioned` | server/internal/httpserver/oidc_handlers.go:489-572 | One call creates at most one account, and only if it read the provisioning switch as on |
| `Sso.AdoptionsAreVerified` | server/internal/httpserver/oidc_handlers.go:386-487 | Adoption rests on a verified email naming a directory-managed active account at an instant of that call |
| `Sso.LinkGained` | server/internal/httpserver/oidc_handlers.go:434-487 | A link appears on an existing account only through adoption or a consumed link request |
| `Sso.RequestsAreSingleUse` | server/internal/storage/oidc.go:150-196 | In every run each pending link request belongs to the account whose session made it and is consumed by at most one call |
| `Sso.ConsumedOnce` | server/internal/storage/oidc.go:177-196 | The first consumer of a link request stays its only one |
| `Sso.ConsumersPresent` | server/internal/storage/oidc.go:150-196 | In every run whoever consumed a link request had come with its state and its secret |
| `Sso.LinksAreChecked` | server/internal/httpserver/oidc_handlers.go:579-622 | A link intent goes on only for an account that was active at an instant of its call |
| `Sso.LinksAreAuthorised` | server/internal/httpserver/oidc_handlers.go:284-363 | Over every run, an existing account that gains a link gains the acting call's own identity, by verified email plus directory id, or by consuming, with its state and secret, the account's own request while the account was read as active |
| `KeyFile.MintedIsTrimmed` | server/cmd/hamlaneh-server/home.go:677-690 | Nothing the generator writes, whole or cut short, is changed by trimming |
| `KeyFile.RunKeepsInv` | server/cmd/hamlaneh-server/home.go:621-674 | In every run at most one process is between create and write, over an empty file, and every accepted key is the file's |
| `KeyFile.KeyIsKept` | server/cmd/hamlaneh-server/home.go:621-690 | Once a start holds an accepted key, the file holds it and never changes again |
| `KeyFile.KeysAgree` | server/cmd/hamlaneh-server/home.go:621-690 | All starts that pass the length check, at whatever moments of a run, hold the same key, also when a write fails part way |
| `KeyFile.ExistingKeyWins` | server/cmd/hamlaneh-server/home.go:627-633 | A long enough key already in the file is the only one any start can hold, and stays |
| `KeyFile.CrashFailsClosed` | server/cmd/hamlaneh-server/home.go:641-674 | After a crash between create and write no start ever accepts a key |
| `KeyFile.WinnerIsRead` | server/cmd/hamlaneh-server/home.go:651-674 | The winner's completed write is accepted by it and by every start that reads afterwards |
| `KeyFile.TrimIs` | server/cmd/hamlaneh-server/home.go:676-690 | What is read is the file without the white space at its two ends, and nothing else is taken off |
| `KeyFile.EnvironmentWins` | server/cmd/hamlaneh-server/home.go:621-624 | A start given a key by its environment holds that key to the end of every run and leaves the file alone |
| `FirstAdmin.RunKeepsInv` | server/internal/bootstrap/bootstrap.go:72-114 | In every run a start that reports created owns a stored account with its own username and password |
| `FirstAdmin.OneCreatorPerName` | server/internal/bootstrap/bootstrap.go:72-114 | Two starts with one username never both report created |
| `FirstAdmin.NoticesAreTrue` | server/cmd/hamlaneh-server/main.go:281-297 | A shown password is the stored account's, was generated by that start, and is shown once |
| `FirstAdmin.AccountsAreConfigured` | server/cmd/hamlaneh-server/home.go:397-420 | Over every run, an account a start reports is the one its variables ask for and meets the account rules, stored as an administrator that must change its password; a password is shown only in home mode when none was set, and is the generated one |
| `FirstAdmin.FirstStartCreates` | server/internal/bootstrap/bootstrap.go:72-114 | A start alone on an empty table makes the account its variables ask for exactly when it meets the rules, and shows its password exactly when it generated it |
| `FirstAdmin.PopulatedIsLeftAlone` | server/internal/bootstrap/bootstrap.go:72-79 | On a table with any account no start creates one or shows a password |
| `FirstAdmin.TwoAdminsIff` | server/internal/bootstrap/bootstrap.go:72-114 | Two starts can both create exactly when both configurations are valid and their usernames differ |
| `Calls.ScreenSharing` | server/internal/calls/calls.go:435-442 | True exactly when some unmuted track shares a screen |
| `Calls.ReadState` | server/internal/calls/calls.go:397-432 | The loop and sort compute the state the lemmas are about |
| `Calls.StateIsTheCall` | server/internal/calls/calls.go:358-432 | A call is active exactly when a user of this server is listed; it holds exactly those users, began at the least join time, and has a first participant who joined then |
| `Calls.StateIgnoresOrder` | server/internal/calls/calls.go:397-432 | With distinct users the state does not depend on the order participants are listed in |
| `Calls.Service.Transition` | server/internal/calls/calls.go:708-729 | The new announced set and the reported transition, for every old set |
| `Calls.Service.Announce` | server/internal/httpserver/call_handlers.go:153-175 | The new announced set and what is announced are one step of the modelled run |
| `Calls.AnnouncedIsLastRead` | server/internal/calls/calls.go:708-729 | In the order the transitions are recorded, the announced channels are exactly those whose last recorded read was active |
| `Calls.EventsFormCalls` | server/internal/httpserver/call_handlers.go:153-175 | In recording order, each channel's events are whole calls (Started Updated* Ended), followed by one running call exactly while its last recorded read was active |
| `Calls.StartsHaveStarters` | server/internal/httpserver/call_handlers.go:160-168 | The branch for a start without a starter is never taken; a start names whoever joined first |
| `Calls.AnnouncementIsTheRead` | server/internal/httpserver/call_handlers.go:153-175 | One delivery announces at most one event, of its own channel: an end exactly when an announced call was found empty, a start exactly when an unannounced one was found running, and in both a start and an update exactly the users just read |
| `FileSign.MacInputInjective` | server/internal/filesign/filesign.go:170-183 | No two (id, variant, expiry) triples are signed over the same bytes |
| `FileSign.ParseFormatted` | server/internal/filesign/filesign.go:110-131 | The expiry text parses back to the expiry, over the whole int64 range |
| `FileSign.ParseIntIff` | server/internal/filesign/filesign.go:117-131 | An expiry text is accepted exactly when it is digits after at most one sign and its value fits 64 bits, and then read as that value |
| `FileSign.MintedIsValid` | server/internal/filesign/filesign.go:103-143 | A minted URL is accepted exactly until its expiry second, at least 3599 and at most 3600 seconds after it was minted |
| `FileSign.SignatureIsBound` | server/internal/filesign/filesign.go:117-143 | A minted signature presented with any file, variant and expiry text is accepted exactly for those it was minted for, in time |
| `FileSign.PathInjective` | server/internal/filesign/filesign.go:144-168 | Every path serves one variant of one file |

## Left out

- The ideal MAC of the audit chain and of file URLs is a parameter; what it is assumed to do is stated as hypotheses on the entries at hand, and HMAC-SHA256 itself is not modelled.
- Base64, JSON, UUID parsing and password hashing are abstract or taken as already decoded values; canonical JSON and IP unmapping happen before the audit fields of the model.
- ContourLoops.MarchingSquares: samples, interpolation and rounding are exact reals, not floats, and each loop is returned before its simplification; an edge key is the unordered pair of its ends.
- Simplification.RdpSimplifies: exact arithmetic with squared distances, so comparisons with epsilon are comparisons of squares; for epsilon >= 0 (RdpHalting covers the rest).
- OutlineTracing.MaskToLoops: kept loops are returned before their simplification and its own length filter.
- Bézier output, SVG text, PNG rendering, mattes and thumbnails.
- The stores of the protocols are values stepped by functions; locks, transactions and update in place of rows are what makes each step atomic in the source and are not modelled.
- MLS key-package publication and encrypted backups; in the visibility model a read shows whole lists rather than pages, and Welcomes are only recorded.
- Visibility.StrangerLearnsNothing: covers the requests under a channel's path; creating a channel, opening a direct message, listing channels and device registration are not among them, and a conflict of channel names is therefore not either.
- Noninterference.RunsAreIndistinguishable: each request is one step; between its lookup and its store call the source may let others in.
- Attachment claims inside a send are one boolean; link previews, search, mentions and unread counts are absent.
- Ordering and delivery of realtime announcements: only what is announced and how often.
- Conversation.DeletionIsFinal: channel deletion is not modelled, because the handlers shown have none.
- Conferences, guest tickets, ejection from calls and LiveKit itself; room-name spelling.
- KeyFile.KeysAgree: file reads and writes are atomic, trimming is of ASCII white space, and nothing else deletes or edits the file during a run.
- FirstAdmin.NoticesAreTrue: a later change of the password by its owner is not a step of that model, and the stored hash is represented by the password it was made from.
- Calls.EventsFormCalls: reads happen outside the lock, so the order is that of recording, which may differ from the order of the reads themselves.
- Calls.StateIgnoresOrder: user ids are ordered as numbers, which is the order of their canonical texts.
- FileSign.SignatureIsBound: the signature is the decoded bytes, so different base64 spellings of one signature are one value.
- HTTP headers, cookies, rate limits, sessions after sign-in, second factors beyond whether one is asked for, environment parsing, the web client and the desktop shell.
