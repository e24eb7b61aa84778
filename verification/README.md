# Proofs about the iflygo control plane

A Dafny model of those parts of the iflygo upgrade manager whose behaviour is hard to see from
reading one function: state that several replicas or requests change at the same time, a picture
that is decoded in place from a byte stream, and values that must survive being written by one side
and read by the other. To check it, run `dafny verify dfyconfig.toml` in this directory.

The database is a set of maps. A statement or a whole transaction is one atomic step wherever row
locks make it one, and where they do not, the steps are taken apart so that other steps can fall
between them. Time is a number that the caller passes in, or that never decreases. What a SELECT
returned, which statement fails, and what random identifiers come out are parameters. Code that
changes state step by step is a class with methods; each method is tied by its `ensures` to a
function of the old state, and what the program promises is proved about that function, or about
runs of any length of steps built from it.

| part | files |
|---|---|
| deleting hosts, one by one and as background jobs of several replicas | `Tables`, `HostDelete`, `DeleteJobs`, `DeleteReplicas` |
| agent registration, enroll tokens, address correction, locks | `Registration`, `RegistrationRuns`, `LockOrder`, `Deadlocks` |
| the RFB (VNC) decoder | `PixelFormat`, `Raster`, `Hextile`, `Rle`, `VncClient` |
| overlay address allocation | `Ipam` |
| MCP routing headers, server and bridge | `Base64`, `McpHeaders` |
| sessions and the account cache | `Sessions` |
| account management | `Rbac` |
| request limiter, migrations, host-name routing | `RateLimit`, `Migrate`, `Edge` |

`Arith`, `Options` and `Sequences` hold what several of them need.

## Where the code does less than it says

Each of these comes with a concrete input or run on which the promise fails, and with the exact
condition under which it holds.

- A plain run-length tile that is filled exactly, as section 7.7.6 of RFC 6143 asks for, is refused if
  nothing follows it, and otherwise swallows what follows: the loop reads one more run. Decoding succeeds
  exactly if the complete runs cover more than the tile (`Rle.SucceedsExactly`, `Rle.OnePixelTileIsRefused`).
- CopyRect copies pixels that it has already overwritten, exactly if source and destination overlap and the
  destination starts after the source in raster order (`Raster.CopyRectExactly`, `Raster.UnsafeCopyDiffers`).
- Correcting an agent's loopback address takes two statements, and corrections can interleave. The agent's
  row and its host end at one address exactly if the first correction of either carries the same address
  (`RegistrationRuns.CorrectionsAgreeExactly`, `RegistrationRuns.InterleavedCorrectionsDisagree`).
- The documented lock order excludes deadlocks only while credentials are apart: transactions can deadlock
  exactly if some credential is at the address of another host or another credential, and interleaved
  corrections bring that about (`Deadlocks.DeadlockExactly`, `Deadlocks.InterleavedCorrectionsDeadlock`).
- `used_count` is the number of registrations exactly if the token is not a used one-time token
  (`RegistrationRuns.TokensAccountForRegistrations`, `RegistrationRuns.UsedTokenShowsZero`).
- The bridge sends the method of a message unencoded. The server reports a header mismatch exactly if the
  method has outer blanks that an HTTP/1 connection trims (`McpHeaders.ForwardedMismatchExactly`,
  `McpHeaders.BlankMethodMismatches`).
- Dropping a changed account's cache entry shuts out its older sessions at once exactly if no lookup that
  read before the change has yet to store an enabled row that admits one of them
  (`Sessions.DropShutsOutExactly`, `Sessions.StaleRowStoredAfterDrop`).
- Deleting an account and resetting a password do not repeat their checks in the statement. It hits an
  account that its actor may not touch exactly if the last thing done to the name in between gave it
  another tenant or an admin role (`Rbac.TrespassExactly`, `Rbac.DeleteHitsAnotherTenant`).
- A user name can be created as given, but is deleted or given a new password exactly if it has no outer
  blanks (`Rbac.PaddedNamesAreOutOfReach`, `Rbac.OtherNamesAreInReach`).
- Rolling back a migration and going up again restores the recorded versions exactly if no other version
  has become due, as one does that came into the list late (`Migrate.DownThenUpExactly`,
  `Migrate.LateVersionAppearsAfterDown`).

In one case the code does better than required: the limiter admits at most 2 * limit - 1 requests in
any closed interval of a window's length, and that bound is met (`RateLimit.NeverTwiceTheLimit`,
`RateLimit.BoundIsMet`).

## Model

| member | source | states |
|---|---|---|
| HostDelete.DeletedExactly | internal/handler/host_manage.go:350-429 | a host is deleted if and only if no statement fails, it was visible at the first look, and under its lock it is still visible and has no unfinished upgrade task or command |
| HostDelete.BusyExactly | internal/handler/host_manage.go:366-405 | a host is busy exactly if it has a pending or running upgrade record or a pending, dispatched, accepted or running command |
| HostDelete.FailedExactly | internal/handler/host_manage.go:350-429 | which failure is reported in which case (not found, busy, a failing statement), and with which address: the first thing that goes wrong decides |
| HostDelete.NothingLeft | internal/handler/host_manage.go:412-428 | after a deletion no agent, per-host record or command refers to the host, and no credential with its address or agent id is left |
| HostDelete.OthersUntouched | internal/handler/host_manage.go:412-428 | exactly these rows stay, each as it was: credentials that differ from the host in agent id, host id and address, per-host records of other hosts, and commands that are neither the host's own nor those of one of its per-host records |
| HostDelete.EachInTurn | internal/handler/host_manage.go:262-285 | in a list of deletions each has its whole effect on what those before it left, or none |
| HostDelete.HostsGoneAreThoseReported | internal/handler/host_manage.go:262-285 | after any list of deletions the hosts that are gone are exactly those reported as deleted |
| HostDelete.DeletedAtMostOnce | internal/handler/host_delete_job.go:352-373 | a host that is listed twice is reported as deleted at most once |
| HostDelete.Connection.DeleteHostTx | internal/handler/host_manage.go:350-429 | outcome and effect on the transaction's view for every failing statement; on failure either nothing or only the agents are gone from the view |
| HostDelete.Connection.DeleteHost | internal/handler/host_manage.go:330-344 | commits the whole deletion or leaves the committed tables as they were |
| HostDelete.Connection.DeleteChunk | internal/handler/host_delete_job.go:352-373 | a batch with one savepoint per host ends in the same tables and outcomes as separate transactions for the same hosts in order; a failed host leaves no trace even if its agents were already removed |
| HostDelete.Connection.HostBatchDelete | internal/handler/host_manage.go:246-287 | the request's two lists are the successes and failures of separate deletions, and from its cancellation on every remaining host is listed as failed and untouched |
| HostDelete.EveryIdReported | internal/handler/host_manage.go:260-285 | every id is reported exactly once, as deleted or as failed |
| HostDelete.ChosenExactly | internal/handler/host_manage.go:262-285 | listed as deleted are exactly the ids whose deletion succeeded, as failed exactly the others |
| HostDelete.UniquePositiveIDs | internal/handler/host_manage.go:290-300 | the positive ids, each once, in the order of their first occurrence |
| DeleteJobs.PrepareIds | internal/handler/host_delete_job.go:163-173 | the positive ids of a request, distinct and ascending; refused exactly if there is none or more than 5000 |
| DeleteJobs.Store.CreateJob | internal/handler/host_delete_job.go:154-198 | adds a pending job of the request with nothing done, exactly if the ids are acceptable and the user has no unfinished job in that tenant |
| DeleteJobs.Store.CancelJob | internal/handler/host_delete_job.go:233-251 | marks exactly an unfinished job of the user in a tenant that the request sees, and changes nothing else |
| DeleteJobs.SortedKeeps | internal/handler/host_delete_job.go:172-173 | sorting keeps the ids and makes them strictly ascending |
| DeleteJobs.EveryAttemptCounted | internal/handler/host_delete_job.go:345-399 | deletions and failures of a batch add up to its hosts |
| DeleteJobs.FailuresInOrder | internal/handler/host_delete_job.go:350-386 | the failures of a batch are recorded in the order of its hosts, each with its host, address and reason, and no other |
| DeleteJobs.ChunkIsNext | internal/handler/host_delete_job.go:337-341 | a batch is the next hundred ids of the job, or all that are left |
| DeleteJobs.Store.RunOnce | internal/handler/host_delete_job.go:296-402 | one run of the loop: closes the job, or deletes its next 100 hosts and advances its row by exactly what happened to them; an aborted run changes nothing |
| DeleteJobs.Store.StoreFailures | internal/handler/host_delete_job.go:377-386 | appends failures in order until 200 are stored |
| DeleteJobs.Store.CountResults | internal/handler/host_delete_job.go:350-373 | counts the deletions of a batch and lists its failures in order |
| DeleteReplicas.StepKeepsInv | internal/handler/host_delete_job.go:154-426 | every step of every replica, every cancel request and every clean-up keeps job rows consistent with the committed attempts, and claims exclusive |
| DeleteReplicas.JobsAccounted | internal/handler/host_delete_job.go:296-402 | in every reachable state processed = deleted + failed_count = number of committed attempts <= number of ids; stored failures are the first 200; "done" means all processed, "canceled" means not all |
| DeleteReplicas.EachIdAttemptedOnce | internal/handler/host_delete_job.go:296-402 | each processed id has exactly one committed attempt, in one committed batch; an unprocessed id has none |
| DeleteReplicas.BatchesUntilDone | internal/handler/host_delete_job.go:336-402 | a job that is not canceled ends after exactly ceil(ids/100) committed batches and not before |
| DeleteReplicas.CommitMakesProgress | internal/handler/host_delete_job.go:323-402 | every committed run strictly decreases (unprocessed ids) + (1 if active) |
| DeleteReplicas.NothingAfterCancel | internal/handler/host_delete_job.go:311-334 | a job that is marked for stopping gets no further committed attempt, whatever replicas, requests and clean-ups do |
| DeleteReplicas.CancelStopsTheJob | internal/handler/host_delete_job.go:233-251 | from a request by the creator of an unfinished job that sees its tenant, nothing more is attempted for the job in any continuation, and it never ends as done |
| DeleteReplicas.CancelOnlyByCreator | internal/handler/host_delete_job.go:91-96 | conversely, in any run a job is marked for stopping only if its creator, seeing its tenant, sent such a request |
| DeleteReplicas.RowChangesOnlyBy | internal/handler/host_delete_job.go:154-426 | a job row changes only by a committed batch of the replica that claimed it, by such a request or by being purged when finished |
| DeleteReplicas.RowAppearsOnlyBy | internal/handler/host_delete_job.go:154-198 | a job row appears only by being created, as the job of that request with nothing done and not marked |
| DeleteReplicas.OwnerStays | internal/handler/host_delete_job.go:154-198 | creator, tenant and ids of a job never change in any run |
| DeleteReplicas.FinishedForGood | internal/handler/host_delete_job.go:311-341 | a finished job never changes again; it can only be purged |
| DeleteReplicas.ClaimsAreExclusive | internal/handler/host_delete_job.go:311-316 | no job is worked on by two replicas, and a replica's copy of the row is the row |
| DeleteReplicas.RunOnceIsARun | internal/handler/host_delete_job.go:296-402 | what the method RunOnce does to the job rows is a run of steps of a free replica, whatever the others hold |
| Registration.Service.ConsumeToken | internal/handler/agent.go:659-696 | succeeds exactly for a usable token with a tenant, and then consumes it once |
| Registration.Service.AgentRegister | internal/handler/agent.go:86-173 | commits the whole registration exactly if the token is accepted and the host is not another tenant's; the host's row is then in the token's tenant; otherwise nothing changes, no token is consumed |
| Registration.AcceptedExactly | internal/handler/agent.go:650-696 | column by column, which registrations are accepted: the token usable at that time and address, and an existing host in the token's tenant, or in tenant 1 where none is required |
| Registration.RegisteredExactly | internal/handler/agent.go:121-166 | what a registration leaves: the host row in the token's tenant, one new credential for those of that address or host, one use of the token |
| Registration.Service.RevokeToken | internal/handler/agent_enroll_tokens.go:222-263 | disables and revokes an automation token of the actor's tenant, and nothing else |
| Registration.Service.RotateToken | internal/handler/agent_enroll_tokens.go:268-373 | exactly for a live token: its successor has the same policy and no uses, and it is revoked itself |
| Registration.Service.MigrateLoopback | internal/handler/agent.go:757-778 | undisturbed, moves a loopback host and its agent to the new address, or nothing if the address is taken |
| Registration.ActiveMeansUsable | internal/handler/agent_enroll_tokens.go:190-199 | a token is listed as active exactly if an agent at an allowed address can register with it |
| Registration.RotatableByStatus | internal/handler/agent_enroll_tokens.go:313-341 | the tokens that can be rotated are exactly those listed as active or exhausted that the actor manages |
| RegistrationRuns.RegisterKeepsAttached | internal/handler/agent.go:121-166 | a registration keeps addresses distinct and every credential attached to a live host whose current agent it is |
| RegistrationRuns.DeleteKeepsAttached | internal/handler/host_manage.go:412-428 | so does deleting a host |
| RegistrationRuns.StepKeepsAttached | internal/handler/agent.go:86-173 | so does every step, also the two halves of an address correction on their own |
| RegistrationRuns.StepKeepsAgreement | internal/handler/agent.go:757-778 | every step but a half correction keeps the address of each credential equal to its host's |
| RegistrationRuns.OneCredentialPerHost | internal/handler/agent.go:149-166 | in every reachable state no host has two credentials |
| RegistrationRuns.TenantsNeverChange | internal/handler/agent.go:121-134 | no run changes a host's tenant, and an id that is gone never comes back |
| RegistrationRuns.TenantsComeFromTheirCreation | internal/handler/agent.go:100-134 | in any run every host was created by a step of it, and is in the tenant of the token or import of that very step, 1 where no token was required |
| RegistrationRuns.DeletedHostsStayGone | internal/handler/host_manage.go:412-428 | a host whose deletion succeeded is gone in every continuation |
| RegistrationRuns.RegisterDropsOwnCredentials | internal/handler/agent.go:149-158 | while addresses agree, registering removes no credential of another host |
| RegistrationRuns.DeleteDropsOwnCredentials | internal/handler/host_manage.go:412-420 | while addresses agree, deleting a host removes no credential of another |
| RegistrationRuns.CorrectionsMove | internal/handler/agent.go:757-778 | in any run of corrections, whole or half and of any agents, the host row takes the first address offered to it and the agent row the first offered to it |
| RegistrationRuns.CorrectionsAgreeExactly | internal/handler/agent.go:757-778 | after such a run an agent that agreed with its host still does if and only if it was not at a loopback address, or the first correction of its host and of its own row carry the same address, or neither occurred |
| RegistrationRuns.CorrectionMeetsAnotherHost | internal/handler/agent.go:757-778 | a run of interleaved corrections that leaves a credential at the address of another host |
| RegistrationRuns.InterleavedCorrectionsDisagree | internal/handler/agent.go:757-778 | a run of two interleaved corrections that ends in disagreement, after which a registration removes the credential of another host |
| RegistrationRuns.StepKeepsCounted | internal/handler/agent.go:671-691 | every step keeps each token's row equal to the registrations committed with it and within its limit |
| RegistrationRuns.TokensAccountForRegistrations | internal/handler/agent.go:650-696 | in every run the registrations committed with a token stay within its limit, one for a one-time token; used_count is their number exactly if the token is not a used one-time token |
| RegistrationRuns.DeadTokensRegisterNobody | internal/handler/agent.go:671-691 | in no run does a registration commit with a dead token |
| RegistrationRuns.NobodyRegistersAfterwards | internal/handler/agent_enroll_tokens.go:222-373 | once a token was revoked, rotated or dropped by someone who manages it, no registration commits with it in any continuation |
| RegistrationRuns.TokenAppearsOnlyBy | internal/handler/agent_enroll_tokens.go:268-373 | a token row appears only as created, or by rotation with the policy of its predecessor and no uses |
| RegistrationRuns.TokenChangesOnlyBy | internal/handler/agent.go:671-691 | a token row changes only by being used, revoked, rotated or dropped; kind and policy never do |
| RegistrationRuns.UsedTokenShowsZero | internal/handler/agent.go:671-676 | a run in which a one-time token is used and its used_count stays 0 |
| RegistrationRuns.StepKeepsLinear | internal/handler/agent_enroll_tokens.go:268-373 | every step keeps rotation linear: one predecessor, one successor, the same policy, the predecessor dead; dead tokens stay dead |
| RegistrationRuns.LineageEndsInItsOnlyLiveToken | internal/handler/agent_enroll_tokens.go:288-363 | in a lineage no token repeats, all have one policy, and only the last can ever be used, now and after any further steps |
| RegistrationRuns.LineagesNeverBranch | internal/handler/agent_enroll_tokens.go:288-363 | two lineages that share a token coincide wherever both go on |
| RegistrationRuns.ReachableStates | internal/handler/agent.go:86-173 | all of these invariants hold in every reachable state |
| LockOrder.RequestsOrdered | internal/handler/host_manage.go:366-418 | registration, deletion, job batches and the synchronizer ask in one strictly increasing order, as far as the order is their own doing |
| LockOrder.RequestsListed | internal/handler/host_manage.go:366-418 | which locks a registration and a deletion ask for, one by one |
| LockOrder.BatchOrdered | internal/handler/host_delete_job.go:172-173 | so does a batch over ascending ids |
| LockOrder.BatchListed | internal/handler/host_delete_job.go:296-373 | so for a batch and for the synchronizer's removal, host by host |
| LockOrder.AgreementSeparates | internal/handler/agent.go:149-158 | addresses in agreement keep credentials apart: none is at the address of another host or another credential |
| LockOrder.MatchIsOwn | internal/handler/host_manage.go:412-420 | while credentials are apart, the DELETE on agents for a host locks that host's credential only, and any such statement at most one |
| LockOrder.FewRows | internal/handler/host_manage.go:412-420 | the same for the rows in whatever order the statement comes upon them |
| LockOrder.StepKeepsInv | internal/handler/agent.go:96-158 | mutual exclusion, and all that is held lies below all that is still to come, through every step: taking, finding rows, savepoint rollback, and any change of the tables |
| LockOrder.TidyRunsNeverDeadlock | internal/handler/host_manage.go:366-418 | from any tables, as long as credentials are apart whenever a DELETE on agents is carried out, no reachable state of any number of transactions is deadlocked |
| LockOrder.NeverDeadlocked | internal/handler/host_manage.go:366-418 | from the empty tables no reachable state is deadlocked if address corrections are carried out as a whole |
| LockOrder.SomeoneCanTakeItsLock | internal/handler/host_manage.go:366-418 | in such runs, while any transaction waits, one can take its lock, or the one in its way does not wait itself |
| Deadlocks.DeadlockReachable | internal/handler/host_manage.go:416-418 | from tables in which a credential is at the address of another host or another credential, two transactions can be led into a deadlock |
| Deadlocks.DeadlockExactly | internal/handler/host_manage.go:366-418 | while hosts and credentials stay as they are, transactions can deadlock if and only if credentials are not apart |
| Deadlocks.InterleavedCorrectionsDeadlock | internal/handler/agent.go:757-778 | a run from the empty tables through interleaved corrections into a deadlock |
| Deadlocks.BatchIncreasesExactly | internal/handler/host_delete_job.go:352-357 | for given tables and ids, all the locks of a batch increase if and only if the owners of the credentials found for each host are in order and lie between that host and the next |
| PixelFormat.MaskIsRemainder | internal/liaison/vnc.go:372-374 | a mask 2^k - 1 extracts the low k bits |
| PixelFormat.ShiftIsQuotient | internal/liaison/vnc.go:372-374 | shifting right by n divides by 2^n |
| PixelFormat.ChannelIsScaledField | internal/liaison/vnc.go:361-383 | a channel is its k-bit field of the pixel value scaled to 0..255, the largest value giving 255, with nothing lost in the conversion to a byte |
| PixelFormat.WordBytes | internal/liaison/vnc.go:361-376 | byte i of the pixel value is byte i of the data, from its end for a big-endian format |
| PixelFormat.BytesDetermine | internal/liaison/vnc.go:361-376 | so these bytes determine the pixel value |
| PixelFormat.WordReadsAs | internal/liaison/vnc.go:361-376 | there is such a pixel value for any data |
| PixelFormat.DecodeMeans | internal/liaison/vnc.go:361-376 | red, green and blue are the bits of the number that the bytes spell, each at its own shift, stretched onto 0 to 255; the pixel is opaque |
| PixelFormat.UsualFormat | internal/liaison/vnc.go:361-376 | in the usual format the bytes are blue, green, red and padding, or the reverse |
| PixelFormat.DecodeAllAt | internal/liaison/vnc.go:348-358 | the i-th colour of a buffer comes from its i-th group of bytes |
| Raster.PaintOneMore | internal/liaison/vnc.go:479-487 | painting one more colour of a rectangle in raster order changes exactly the next pixel |
| Raster.PaintedAt | internal/liaison/vnc.go:348-358 | column xx of row yy of a painted rectangle has colour number yy * w + xx |
| Raster.NotPaintedAt | internal/liaison/vnc.go:479-487 | painting changes nothing outside the rectangle |
| Raster.SafeCopyIsAtOnce | internal/liaison/vnc.go:385-393 | the in-place copy equals the simultaneous one if the rectangles are apart or the destination's origin is not after the source's |
| Raster.CopiedAt | internal/liaison/vnc.go:385-393 | the simultaneous copy puts each pixel of the source at the same place of the destination |
| Raster.NotCopiedAt | internal/liaison/vnc.go:385-393 | and changes nothing outside the destination |
| Raster.CopyRectExactly | internal/liaison/vnc.go:385-393 | and only then: for every other placement some picture is copied wrongly |
| Raster.UnsafeCopyDiffers | internal/liaison/vnc.go:385-393 | builds that picture |
| Hextile.TilesPartition | internal/liaison/vnc.go:398-407 | the 16 by 16 tiles, cut at the edges, cover the rectangle and do not overlap |
| Hextile.PaintOneMoreSub | internal/liaison/vnc.go:445-471 | one more subrectangle in the tile's meaning is painting it over what is there: every pixel shows its last painter |
| Hextile.HexImageOneMore | internal/liaison/vnc.go:398-473 | one more tile in the meaning of a rectangle is painting that tile, and no pixel of another |
| Hextile.ParseEncodedTile | internal/liaison/vnc.go:408-471 | a tile encoded as in section 7.7.4 of RFC 6143 parses into its meaning, whatever follows it and whatever colours are carried in |
| Hextile.ParseEncodedTiles | internal/liaison/vnc.go:396-477 | so does a sequence of tiles, with background and foreground carried from tile to tile |
| Hextile.ClipCoversExactly | internal/liaison/vnc.go:446-471 | a pixel of the tile is covered exactly if it lies in the subrectangle that the two bytes name, column before row, less one |
| Hextile.SimplestTiles | internal/liaison/vnc.go:408-432 | a raw tile byte by byte, and a tile that says nothing, which shows the background at hand |
| Hextile.TilesWithSubrectangle | internal/liaison/vnc.go:420-471 | tiles byte by byte: background, foreground, count, and a subrectangle of its own colour or of the foreground |
| Hextile.BackgroundIsCarried | internal/liaison/vnc.go:396-441 | a background holds until another tile gives one, also past a raw tile; before the first there is none |
| Rle.ExpandAt | internal/liaison/vnc.go:612-625 | pixel k has the colour of the run whose range of cumulative lengths contains k |
| Rle.ParseEncodedLength | internal/liaison/vnc.go:600-611 | a run length is 1 plus the sum of its length bytes up to the first that is not 255, and the encoding of any length parses back |
| Rle.SucceedsExactly | internal/liaison/vnc.go:594-626 | decoding succeeds if and only if the complete runs in the data cover more than the tile |
| Rle.RunsReadCoverTile | internal/liaison/vnc.go:594-626 | the runs that are read count more pixels than the tile, and without the last one no more |
| Rle.AllRunsOfEncoding | internal/liaison/vnc.go:597-611 | the encoding of runs parses into exactly these runs |
| Rle.TwoRuns | internal/liaison/vnc.go:597-611 | two runs byte by byte: 255 is carried on, and a length byte of 0 makes one pixel |
| Rle.ExactFillIsRefused | internal/liaison/vnc.go:594-626 | runs that cover exactly the tile with nothing behind them are always refused |
| Rle.OnePixelTileIsRefused | internal/liaison/vnc.go:594-626 | the smallest such input |
| Rle.FullTileAndOneMoreRun | internal/liaison/vnc.go:594-626 | a full tile followed by a run is accepted, and that run is consumed |
| VncClient.Client.DecodePixel | internal/liaison/vnc.go:361-376 | the loops in 32-bit arithmetic compute the pixel value in either byte order, and its colour, whose parts are the pixel value's bits at the red, green and blue shift, stretched |
| VncClient.Client.FillSolid | internal/liaison/vnc.go:479-487 | paints the rectangle in one colour and changes no other byte |
| VncClient.Client.FillRaw | internal/liaison/vnc.go:348-358 | paints the rectangle with the decoded buffer and changes no other byte |
| VncClient.Client.CopyRect | internal/liaison/vnc.go:385-393 | the byte buffer goes through exactly the step-by-step copy, and is the simultaneous one whenever that is safe |
| VncClient.Client.ReadSubs | internal/liaison/vnc.go:446-471 | refines parsing and painting of a tile's subrectangles, clipped to the tile |
| VncClient.Client.ReadTile | internal/liaison/vnc.go:408-471 | refines one tile of the specification: same success, same colours carried on, same bytes consumed, same picture |
| VncClient.Client.ReadHextile | internal/liaison/vnc.go:396-477 | refines the whole rectangle: succeeds exactly if the stream parses, consumes exactly its bytes, shows exactly the tiles' picture, and changes nothing outside |
| VncClient.Client.ReadRun | internal/liaison/vnc.go:598-611 | reads one run: a colour and its length bytes |
| VncClient.Client.ReadPlainRle | internal/liaison/vnc.go:594-626 | refines the run specification: on success every pixel of the tile has the colour of its run, nothing outside changes, and the loop terminates |
| VncClient.PixelsDetermineBytes | internal/liaison/vnc.go:348-358 | the buffer of opaque pixels and the picture determine each other |
| Ipam.MaskedFits | internal/ipam/ipam.go:37 | a masked prefix starts at a multiple of its size and ends inside the address space |
| Ipam.ContainsIsRange | internal/ipam/ipam.go:52-66 | a prefix contains exactly the addresses of one range, before and after masking |
| Ipam.LastIsBroadcast | internal/ipam/ipam.go:162-168 | the 32-bit arithmetic gives the last address of the prefix for every length from 0 to 32 |
| Ipam.CandidateExactly | internal/ipam/ipam.go:37-79 | as numbers, which addresses may be given out: those of the prefix but its first, the last of an IPv4 prefix shorter than 32 bits, and the excluded ones |
| Ipam.Allocator.Insert | internal/ipam/ipam.go:82-96 | adds the address exactly if it is free, and tells apart a conflict from a failure |
| Ipam.Allocator.Allocate | internal/ipam/ipam.go:32-79 | an allocated address was free, inside and not reserved; without a request every lower candidate was taken; exhaustion means no candidate was free; every error only in its own case |
| Ipam.Allocator.Search | internal/ipam/ipam.go:66-78 | the search loop terminates with the least free candidate or none |
| Ipam.Allocator.BindNode | internal/ipam/ipam.go:99-103 | binds an allocated address, and changes nothing if there is none |
| Ipam.Allocator.ReleaseNode | internal/ipam/ipam.go:113-117 | removes exactly the rows of the node |
| Ipam.ResultIsDetermined | internal/ipam/ipam.go:32-79 | absent failures the promise admits one result only |
| Ipam.ReleaseUndoesAllocate | internal/ipam/ipam.go:82-117 | releasing the address, or the node it was bound to, restores the table |
| Ipam.StepKeepsInv | internal/ipam/ipam.go:32-117 | every step of concurrent calls keeps held addresses in the table and held once, and each search has noted all candidates it passed over |
| Ipam.BeginIsAlone | internal/ipam/ipam.go:32-50 | a call begins having passed over nothing |
| Ipam.TurnStaysAlone | internal/ipam/ipam.go:66-78 | a turn of an undisturbed call brings a result or moves on by one address |
| Ipam.UndisturbedCallAllocates | internal/ipam/ipam.go:32-79 | a call that takes its turns undisturbed ends, and with what Allocate promises |
| Ipam.NoAddressHeldTwice | internal/ipam/ipam.go:32-117 | in every run no two calls hold the same address of a network, and each holds one it may hold |
| Ipam.ExhaustedMetAll | internal/ipam/ipam.go:66-79 | under concurrency, for every candidate of a call that reports exhaustion there is a moment of the run, while the call is under way, at which the address is in the table or the call's own insert of it fails |
| Base64.RoundTrip | internal/mcp/mcp.go:183-207 | decoding the standard encoding gives back every sequence of octets |
| Base64.Alphabet | internal/mcp/mcp.go:183-207 | the digits are those of section 4 of RFC 4648, in order |
| Base64.TestVectors | internal/mcp/mcp.go:183-207 | test vectors of section 10 of RFC 4648 |
| McpHeaders.EncodeHeaderValue | internal/mcp/mcp.go:195-207 | the scan decides exactly the safe values |
| McpHeaders.HeaderValueRoundTrip | internal/mcp/mcp.go:183-207 | every value survives encoding and decoding, and what is sent is non-empty printable ASCII without outer blanks |
| McpHeaders.ServedCallsAgree | internal/mcp/mcp.go:239-269 | a modern call served over HTTP has the same version, method and name in headers and body |
| McpHeaders.HandledExactly | internal/mcp/mcp.go:219-267 | what is answered to which message: accepted, initialized, dispatched with which version, or which error code |
| McpHeaders.BatchesNeverMismatch | internal/mcp/mcp.go:239-267 | a message without headers is never answered with a header mismatch |
| McpHeaders.NameArrives | cmd/mcp-bridge/main.go:137-168 | the name header of a forwarded message survives the connection and decodes to the name in the body |
| McpHeaders.SentExactly | cmd/mcp-bridge/main.go:137-168 | with which messages the bridge sends routing headers, and what is in each |
| McpHeaders.ForwardedMismatchExactly | cmd/mcp-bridge/main.go:137-168 | a forwarded message is answered with a header mismatch if and only if its method has outer blanks, the connection trims, and it is a modern call with an id |
| McpHeaders.BlankMethodMismatches | cmd/mcp-bridge/main.go:156-159 | such a message |
| Sessions.IssueTimeRounding | internal/auth/session.go:73-84 | rounding up never makes a session look older than it is nor a millisecond younger, and it lasts its seven days |
| Sessions.VerifiedExactly | internal/auth/session.go:93-120 | the tokens that verify are exactly the payloads that carry their own hash and whose expiry second has not passed |
| Sessions.SignedVerifies | internal/auth/session.go:73-120 | a signed token gives back its payload until its expiry second has passed, and nothing afterwards |
| Sessions.SevenDays | internal/auth/session.go:73-120 | in times: a token verifies for seven days from the moment it is minted, and from one second later never again |
| Sessions.EvictionIsInvisible | internal/auth/builtin.go:315-328 | evicting entries never changes what a lookup answers |
| Sessions.Builtin.Lookup | internal/auth/builtin.go:194-236 | answers from an entry younger than 30 seconds, else from the row, which it then caches |
| Sessions.LookupIsReadThenStore | internal/auth/builtin.go:194-236 | an undisturbed lookup answers as the runs see the account, and is a read and a store of such a run |
| Sessions.Builtin.Authenticate | internal/auth/builtin.go:155-178 | accepts exactly a session whose expiry second has not passed, of an enabled account that was not changed after the session was issued, and returns the looked-up profile |
| Sessions.Builtin.Login | internal/auth/builtin.go:105-152 | exactly for an enabled account and its password; caches the row it read |
| Sessions.Builtin.ChangePassword | internal/auth/builtin.go:242-305 | exactly for a valid change with the old password whose hash nobody changed meanwhile: new hash and change time, a fresh cache entry, a session issued at that very time; each failure leaves its own state |
| Sessions.Builtin.EvictCache | internal/auth/builtin.go:315-328 | drops exactly the entries older than 60 seconds |
| Sessions.ChangedPasswordSessionPasses | internal/auth/builtin.go:273-304 | that session passes the issue-time check against the row just written and every older one, and for seven days |
| Sessions.SeenAsItIs | internal/auth/builtin.go:194-236 | 30 seconds (and the time between reading and storing) after its last change became visible an account is seen exactly as it is |
| Sessions.OldSessionsRejectedInTime | internal/auth/builtin.go:155-178 | after any change, every session that counts as issued before it, with or without an issue time of its own, is rejected by each authentication 30 seconds (and the named delays) later, whatever happens in between |
| Sessions.DropShutsOutExactly | internal/auth/builtin.go:289-292 | dropping the entry of a changed account shuts out every session issued before the change, at once and in every continuation, if and only if no lookup has yet to store an enabled row that admits one |
| Sessions.StaleRowStoredAfterDrop | internal/auth/builtin.go:200-234 | a run in which a lookup stores an older row after the drop |
| Rbac.NormalizeRoles | internal/rbac/rbac.go:45-68 | the trimmed roles, each once, in order of appearance, "user" if there is none; an error exactly if one is not allowed |
| Sequences.TrimExactly | internal/rbac/rbac.go:45-68 | trimming drops all blanks at both ends and nothing else |
| Rbac.Service.Create | internal/rbac/rbac.go:129-160 | creates the account exactly as resolved from actor, tenant and roles, under a new id, or changes nothing |
| Rbac.Service.SetTenantRoles | internal/rbac/rbac.go:163-205 | changes the account exactly if the actor may |
| Rbac.Service.SetDisabled | internal/rbac/rbac.go:229-265 | exactly if the actor may touch the account and does not disable itself |
| Rbac.Service.Delete | internal/rbac/rbac.go:319-371 | exactly if the actor may touch the account of the trimmed name and it is not its own; memberships and field values of that user go with it, others stay |
| Rbac.Service.ResetPassword | internal/rbac/rbac.go:377-424 | exactly for an acceptable password and an account the actor may touch |
| Rbac.ServedIsCheckThenWrite | internal/rbac/rbac.go:163-205 | an undisturbed request is its check followed at once by its statement |
| Rbac.RunKeepsConsistent | internal/rbac/rbac.go:150-192 | in every run, by whomever, is_admin says what the roles say and ids are not handed out twice |
| Rbac.OthersStayUntouched | internal/rbac/rbac.go:129-424 | while only non-superadmins act, however checks and statements interleave, superadmins and all accounts of foreign tenants are exactly as before |
| Rbac.TenantsStay | internal/rbac/rbac.go:129-424 | in such a run no account changes its tenant |
| Rbac.GuardedWritesNeedNoCheck | internal/rbac/rbac.go:188-204 | the statements of SetTenantRoles and SetDisabled touch only a plain account of the actor's tenant, whatever happened since the check |
| Rbac.RunShowsFate | internal/rbac/rbac.go:129-424 | in any run the tenant and roles of a name are those that the last statement on it that took effect gave it |
| Rbac.TrespassExactly | internal/rbac/rbac.go:319-424 | whatever happens between check and statement of Delete and ResetPassword, the statement hits an account its actor may not touch if and only if the last thing done to the name gave it another tenant or an admin role |
| Rbac.DeleteHitsAnotherTenant | internal/rbac/rbac.go:319-371 | a run in which that happens |
| Rbac.PaddedNamesAreOutOfReach | internal/rbac/rbac.go:320-423 | an account whose name has outer blanks is reached by no deletion and no reset |
| Rbac.OtherNamesAreInReach | internal/rbac/rbac.go:319-424 | an account that the actor may touch is deleted, and gets a new password, if and only if its name has no outer blanks |
| RateLimit.RateLimiter.Allow | internal/middleware/ratelimit.go:63-84 | decision and new bucket of one request; other keys keep theirs |
| RateLimit.RateLimiter.Cleanup | internal/middleware/ratelimit.go:87-105 | the loop removes exactly the expired buckets |
| RateLimit.OnlyOwnArrivalsMatter | internal/middleware/ratelimit.go:63-105 | which requests of a key are admitted depends on its own arrival times alone: not on other keys, not on any cleanup |
| RateLimit.NeverTwiceTheLimit | internal/middleware/ratelimit.go:63-84 | no closed interval of a window's length admits 2 * limit requests of a key |
| RateLimit.BoundIsMet | internal/middleware/ratelimit.go:63-84 | one less is reached, for every limit and window |
| RateLimit.WindowHoldsTheLimit | internal/middleware/ratelimit.go:63-84 | a window, from the request that opens it to its end, admits the limit at most, whatever comes later |
| RateLimit.TurnedAwayOnlyWhenFull | internal/middleware/ratelimit.go:77-79 | a request is turned away only if the limit was admitted within the window's length before it |
| RateLimit.DynamicRateLimiter.Allow | internal/middleware/ratelimit.go:128-147 | no limit or a stopped limiter admits; a new limit starts with empty buckets; otherwise decides as the fixed limiter |
| Migrate.PendingExactly | internal/migrate/migrate.go:195-205 | what is due is exactly the versions above the current one with an up script, ascending |
| Migrate.Migrator.ApplyMigration | internal/migrate/migrate.go:260-294 | script and version row are committed together or not at all |
| Migrate.Migrator.Up | internal/migrate/migrate.go:160-223 | commits the due scripts in order, all of them or those before the failing one, and records exactly these |
| Migrate.Migrator.Down | internal/migrate/migrate.go:346-398 | removes the current version exactly if it has a down script in the list |
| Migrate.UpIsIdempotent | internal/migrate/migrate.go:160-223 | after Up nothing is due |
| Migrate.DownThenUpExactly | internal/migrate/migrate.go:160-398 | Down then Up restores the recorded versions if and only if the version has an up script and no other is due after the rollback |
| Migrate.DownThenUpFromScratch | internal/migrate/migrate.go:160-398 | which is so whenever the database was brought up from nothing with the same list |
| Migrate.LateVersionAppearsAfterDown | internal/migrate/migrate.go:160-398 | a list and recorded versions for which it is not |
| Migrate.StepKeepsInv | internal/migrate/migrate.go:160-223 | every step of every replica keeps log, recorded versions and the holder's position consistent |
| Migrate.EachScriptCommitsOnce | internal/migrate/migrate.go:160-294 | for any replicas and crashes the committed scripts are a prefix of those due, each once, ascending; the recorded versions are the old ones and theirs; once a replica has gone through, all are committed |
| Migrate.HolderNeverCollides | internal/migrate/migrate.go:283-293 | the holder of the lock never runs into a version that is already recorded |
| Edge.Table.constructor | internal/edge/edge.go:30-38 | files each rule under its key, the last of equal keys winning, TCP routes ignored |
| Edge.Table.AddLocked | internal/edge/edge.go:77-84 | files one rule, exact or wildcard, under its lower-case name |
| Edge.Table.Set | internal/edge/edge.go:65-75 | files exactly the new rules, whatever was there |
| Edge.Table.Lookup | internal/edge/edge.go:87-108 | answers with the exact rule, else the wildcard of the longest suffix, else nothing |
| Edge.OneAnswer | internal/edge/edge.go:87-108 | the rules admit one answer: a table rebuilt by Set answers like a new one |
| Edge.LastRuleCounts | internal/edge/edge.go:77-84 | the last rule for a name is filed under it, or under the rest of the name if it begins with "*." |
| Edge.WildcardServesSubdomains | internal/edge/edge.go:87-108 | a wildcard rule alone answers for every name of one more label before its own |
| Edge.LongestSuffixWins | internal/edge/edge.go:95-106 | a matching wildcard never wins over one with a longer suffix |
| Edge.CaseOfRulesIrrelevant | internal/edge/edge.go:77-84 | writing the hosts of the rules in another case changes no answer |

## Left out

- VncClient.Client.ReadHextile: on a stream that ends too early it says that nothing outside the rectangle changed, not which tiles were painted before.
- VncClient.Client.ReadPlainRle: likewise for a stream that ends too early.
- VncClient.Client.FillSolid: rectangles lie inside the framebuffer; the program does not check this itself.
- LockOrder.NeverDeadlocked: a lock stands for all rows of a host in one table; the order of rows inside such a group is not modelled. Changes of the tables are steps of their own, not bound to the locks of a transaction, which allows more runs than there are.
- LockOrder.RequestsOrdered: the transactions of reports, stage updates and orchestration are not part of this model.
- Deadlocks.DeadlockExactly: the runs into a deadlock begin with all upgrade tasks and commands finished and removed, so that every row a transaction waits for is there.
- Registration.Service.AgentRegister: descriptive host columns are left out; whether an address lies in an allowed network is an abstract predicate.
- RegistrationRuns.StepKeepsAttached: hosts that come from other sources are imported without an agent; bulk edits do not touch the columns modelled here.
- HostDelete.Connection.DeleteHostTx: the first, unlocked look is a parameter, because other transactions may change the row before it is locked; ON DELETE rules follow the schema of hosts, agents, task_hosts and commands.
- DeleteReplicas.StepKeepsInv: the outcome of an attempt is arbitrary; the tables it works on are in DeleteJobs.Store.RunOnce.
- Ipam.Allocator.Allocate: addresses are values, not text, so requested and excluded IPv6 addresses are taken to be in canonical form; mapped addresses and zones are not modelled.
- Ipam.Allocator.ReleaseNode: clients and server nodes share the node column, so releasing by number can hit both kinds; only one kind is modelled.
- Base64.RoundTrip: the decoder is the standard one with padding, which skips line breaks and ignores unused bits.
- McpHeaders.ForwardedMismatchExactly: JSON decoding is taken as given and alike on both sides; Unicode spaces and the connection's treatment of other headers are not modelled.
- McpHeaders.ServedCallsAgree: what the methods then do (tool lists, calls, initialize) is not modelled.
- Sessions.OldSessionsRejectedInTime: one clock for database and server; the time between reading a row and storing it, and between the NOW() of a change and its becoming visible, are bounds the caller names.
- Sessions.Builtin.ChangePassword: other requests change the rows between its statements, but not the cache.
- Sessions.Builtin.Login: accounts are keyed by one name, which stands for both user name and id; bcrypt is an abstract predicate and the equal-time comparison for unknown users is left out.
- Sessions.VerifiedExactly: the hash is any function; forging it is not modelled. A tenant id below 1 in a payload is not modelled.
- Rbac.Service.Delete: a request without a signed-in user is refused (the program compares with tenant -1, which no account has).
- Rbac.NormalizeRoles: names are sequences of characters; input that is not valid UTF-8 is not modelled.
- Rbac.OthersStayUntouched: actors are given by name, tenant and whether they are superadmins at the time of the request.
- RateLimit.DynamicRateLimiter.Allow: taking the limiter and asking it are one step; proxies and forwarded addresses are left out.
- Migrate.EachScriptCommitsOnce: PostgreSQL's advisory lock; SQLite without it, the splitting of scripts into statements and what the scripts do are not modelled.
- Migrate.Migrator.Down: takes no lock; running beside Up is not modelled.
- Edge.Table.Lookup: lower case is any mapping of names; the proxy around the table is left out.
- The ZRLE packed palette, palette RLE and Tight encodings and the bit reader they use.
- ZRLE's zlib stream, and its raw and solid tiles, which are FillRaw and FillSolid.
- HTTP handlers, JSON, SQL text, filters, paging, audit records, metrics and notifications.
- Web shells, file transfer, installers, LLM calls, Nebula and Casbin.
- The TCP proxy, the response cache and the choice of routes by health.
- Task orchestration and the agent gateway.
