# Verified models of TrustedCourier

TrustedCourier delivers Secrets to Agents without letting Agents see them. This project models the
parts of it that carry hard invariants and proves what their documentation promises. Each module
stands for one component; `dafny verify dfyconfig.toml` checks them all.

| module | component |
|---|---|
| `AuditFormat`, `AuditVerify`, `AuditLog`, `AuditRuns` | the hash-chained, checkpoint-signed audit log and its paged, two-phase verifier |
| `Redact` | whole-string and streaming Redaction |
| `SecretCache` | the Secret cache under config reload, and the buffers it owns |
| `Broker`, `Shell` | the tc-exec broker's two racing transports, its caps, expiry and shutdown; the command line it writes |
| `OpenBaoWrite`, `OpenBaoList`, `Ordering` | the OpenBao plugin's check-and-set loop and its pruned tree walk |
| `AcmeRenewal`, `Dns01` | the ACME renewal loop and the DNS-01 records of one order |
| `PathPolicy`, `Access`, `Query`, `Percent` | which Proxy Deliveries a Policy allows, and the query they send |
| `SigV4` | the canonical query string of AWS Signature Version 4 |
| `Basics` | what several modules need: options, bytes, sizes of sets |

How the models are built:

- An object the program updates in place is a class; a loop is a loop with invariants. A method that
  stands for one section under a lock keeps `Valid()`, so `Valid()` holds in every interleaving.
  Methods such as `Others` and `Step` take any number of other goroutines' steps. What needs no lock may
  also fall inside a section: a reload's store inside a request's second half, and an edit of the audit
  tables by someone else between any two of the log's own statements on them.
- Storage, signing, the network, random choices and the clock answer freely (`*`); what a run without
  failures achieves is stated under a flag such as `reliable`. A step count such
  as `fuel` is a parameter that the results hold for whatever its value.
- SHA-256 is a function on encoded entries; where a result needs that two entries never share a hash
  it says `CollisionFree`, and where it needs that the JSON text and time format lose nothing, `Lossless`.
  A signature is checked by an arbitrary predicate; where a result needs
  that a signature in the table was made by the key it says `Unforged`, or that the key is not `forged`.
- Where a byte is a `char` or an `int`, the module says so.

Four promises turned out to hold only under a condition. Each has a result that says exactly when,
and a run or an input that fails it:

- A verified checkpoint says what was stored when it was signed exactly if those rows were intact at
  that moment (`AuditRuns.AcrossRestarts`; the failing run is `AuditRuns.SignedOverMissingRows`).
- The check-and-set write keeps a record's other fields exactly if the record it replaced is the one
  it read, and was live then or had no other field, or is another one that agrees with it in them
  (`OpenBaoWrite.Record.WriteCourierKey`; the failing runs are `OpenBaoWrite.UndeleteLosesAField` and
  `OpenBaoWrite.RemovalLosesAField`).
- List returns every location that starts with the prefix unless the prefix is a mount's path without
  its slash and another mount whose path starts with it holds a match (`OpenBaoList.ListsEverything`;
  `OpenBaoList.SecretMissesSecrets`). The comment on List promises both every such location and only
  the mount that holds the prefix; the model follows the code.
- Removing the DNS-01 records puts the zone back exactly if none of their values was there before
  (`Dns01.Restored`; the failing run is `Dns01.RemovesWhatWasThere`).

Redaction promises output free of needles at least while some mask byte is in no needle
(`Redact.MaskedIsClean`); `Redact.FallbackMaskCanMatch` shows needles with which the fallback `*` does
not keep it.

## Model

| member | source | states |
|---|---|---|
| `AuditFormat.ChainPrefix` | internal/audit/audit.go:59-87 | every prefix of a chain is a chain that ends at its last entry's hash |
| `AuditFormat.HeadDeterminesChain` | internal/audit/audit.go:59-87 | without hash collisions, two chains of one length and head are the same chain |
| `AuditFormat.HeadDeterminesTail` | internal/audit/audit.go:59-87 | a chain that ends at the head of a linked run ends with that run |
| `AuditFormat.BigEndianInjective` | internal/audit/audit.go:103-110 | fixed-width big-endian text determines the number |
| `AuditFormat.Be64Injective` | internal/audit/audit.go:103-110 | eight bytes determine a 64-bit signed number, negative ones included |
| `AuditFormat.MessageInjective` | internal/audit/audit.go:103-110 | the signed message determines the checkpoint's sequence number, predecessor, time and head |
| `AuditFormat.MessageLayout` | internal/audit/audit.go:103-110 | where the sequence number, its predecessor, the time and the head stand in the signed message, as big-endian numbers |
| `AuditFormat.BigEndianValue` | internal/audit/audit.go:103-110 | the bytes stand for the number, most significant first |
| `AuditFormat.EntryCovers` | internal/audit/audit.go:466-484 | two rows give one entry exactly when number, time, each of the eight columns, the status with NULL as 0, and the hash before them agree as encoded |
| `AuditFormat.ReadsBackTheRecord` | internal/audit/audit.go:657-700 | if the encoding loses nothing, a row that reads back as a record's entry holds that record |
| `AuditVerify.Next` | internal/audit/audit.go:603-700 | the query for the next row returns the least key past the last, or none if there is none |
| `AuditVerify.RowPasses` | internal/audit/audit.go:657-700 | a row that passes extends the chain read so far and stays in step with untouched tables |
| `AuditVerify.HonestRowPasses` | internal/audit/audit.go:657-700 | in untouched records no row is reported |
| `AuditVerify.HonestCheckpointPasses` | internal/audit/audit.go:603-642 | in untouched tables no checkpoint is reported |
| `AuditVerify.CheckpointPasses` | internal/audit/audit.go:603-642 | a checkpoint that passes is signed, names the head of the entries read, and counts once |
| `AuditVerify.RowFails` | internal/audit/audit.go:684-695 | a row reported is at fault in the way reported |
| `AuditVerify.CheckpointFails` | internal/audit/audit.go:623-637 | so is a checkpoint reported |
| `AuditVerify.CountNext` | internal/audit/audit.go:603-642 | moving to the next checkpoint counts exactly one more |
| `AuditVerify.HonestIsIntact` | internal/audit/audit.go:59-87 | every prefix of untouched records chains up to the hash of its last row |
| `AuditVerify.VerifyPage` | internal/audit/audit.go:657-700 | for every page size, what was read is one chain; a break is at the record past those that passed, which is missing, does not match its hash, or does not chain to them; a short page means no row is left; no break on untouched rows |
| `AuditVerify.VerifyCheckpointPage` | internal/audit/audit.go:603-642 | the same for checkpoints over the records found intact; each one passed is signed and names its record's hash; a break is a checkpoint that does not verify, follow or match, or a missing one that a signed one names |
| `AuditLog.InsertRecord` | internal/audit/audit.go:428-464 | one INSERT of a record keeps untouched tables verifiable |
| `AuditLog.InsertCheckpoint` | internal/audit/audit.go:334-350 | one INSERT of a checkpoint keeps untouched tables verifiable |
| `AuditLog.NewRowReadsBack` | internal/audit/audit.go:428-484 | a stored row reads back as the entry that was hashed |
| `AuditLog.Log.Open` | internal/audit/audit.go:188-200 | a process starts at the last row and checkpoint, with edits between the two queries; over untouched tables with the right head and count |
| `AuditLog.Log.LoadKey` | internal/audit/audit.go:247-258 | loading the key, even while Close waits for the loader, changes nothing else |
| `AuditLog.Log.ReadyMeansStored` | internal/audit/audit.go:219-227 | a log that says it is ready has its key and has stored every record appended |
| `AuditLog.Log.Sign` | internal/audit/audit.go:334-350 | signs nothing, or one checkpoint: of the head, naming the one before it, over exactly the rows then in the table; stores that one or none, with edits between signature and INSERT; a due checkpoint is made when storage does not fail |
| `AuditLog.Log.Store` | internal/audit/audit.go:428-464 | stores exactly the record as the next row chained to the head, or changes no row; a checkpoint comes only when it is due; edits may fall between the INSERT and the checkpoint |
| `AuditLog.Log.Flush` | internal/audit/audit.go:373-396 | stored records followed by the backlog stay all records in order, whatever is edited in between; the backlog flag and a live retry goroutine go with a nonempty backlog |
| `AuditLog.Log.Append` | internal/audit/audit.go:358-363 | the record is added once, after all earlier ones, stored or not |
| `AuditLog.Log.RetryTick` | internal/audit/audit.go:400-417 | a retry loses and adds nothing, and its goroutine ends only when the backlog is empty or it sees that Close was called |
| `AuditLog.Log.IntervalTick` | internal/audit/audit.go:286-302 | a timed checkpoint, even while Close waits, keeps every invariant and signs for the head over the rows of the moment |
| `AuditLog.Log.Wait` | internal/audit/audit.go:308-310 | while Close waits, retries, key loads and timed checkpoints may still come; then no goroutine is left and no record is lost |
| `AuditLog.Log.Close` | internal/audit/audit.go:308-330 | no goroutine is left, the key is gone, and what was appended is what was stored followed by what it reports lost |
| `AuditLog.Edit` | internal/audit/audit.go:515-527 | an edit by anyone else changes nothing about what was signed, and is marked as forged exactly if it brings in a signature the key never made |
| `AuditLog.Log.Meddle` | internal/audit/audit.go:515-527 | edits between any two statements keep the signing history |
| `AuditLog.Log.Others` | internal/audit/audit.go:358-417 | any number of appends, retries, checkpoints and key loads, unless the lock is held, and edits between and within them, keep what holds whenever the lock is free, and the signing history |
| `AuditLog.HistoryLater` | internal/audit/audit.go:334-350 | every step keeps that a checkpoint signed over untouched tables was signed over rows that chain up to its head, and that nothing is forged |
| `AuditLog.Log.BeforePage` | internal/audit/audit.go:579-598 | where a walk stands survives what others do before its next page |
| `AuditLog.Log.WalkRecords` | internal/audit/audit.go:579-598 | the record pages of one walk, others and an editor acting before each: one chain, and with no editor nothing left unread under the lock |
| `AuditLog.Log.WalkCheckpoints` | internal/audit/audit.go:579-598 | the same for its checkpoint pages |
| `AuditLog.Log.WalkTables` | internal/audit/audit.go:579-598 | records, then checkpoints, with a checkpoint break reported before a record break |
| `AuditLog.Log.WalkTwice` | internal/audit/audit.go:543-555 | both walks, with others and an editor acting before each page and between them |
| `AuditLog.Log.Conclude` | internal/audit/audit.go:557-573 | no break only if the walks ended at this process's last record, head and checkpoint, with no checkpoint past them; otherwise the break is exactly where they differ |
| `AuditLog.Log.Inspect` | internal/audit/audit.go:543-574 | both walks and the comparison: where a break was found, and the tables of that moment |
| `AuditLog.RowsStillHold` | internal/audit/audit.go:657-700 | rows that read back as a run's entries hold what the run stored, column by column |
| `AuditLog.Log.Verify` | internal/audit/audit.go:528-574 | soundness: whatever an editor did, before or during the call, no break means that the entries read are the one chain ending at this process's head and hold all it stored; if nobody edits meanwhile and the encoding loses nothing, every row it stored still holds the time, the columns and the status appended; a break reported is one the tables showed at a moment of the call, or one between their end and what the log remembers; completeness: no break on tables only the log wrote, with full counts, while appends interleave |
| `AuditRuns.EncodedIsIntact` | internal/audit/audit.go:657-700 | rows encode a chain exactly when they are all there and chain up to its head |
| `AuditRuns.CheckpointPinsRows` | internal/audit/audit.go:528-642 | the entries read up to a verified checkpoint are the rows of its signing exactly if those were intact, and so whenever the tables were then untouched |
| `AuditRuns.SameEntriesSameRecords` | internal/audit/audit.go:657-700 | rows that encode the same entries hold the same records, column by column |
| `AuditRuns.AcrossRestarts` | internal/audit/audit.go:188-700 | after any run of processes and edits, and any steps of the verifying process among further edits, if Verify finds no break the tables hold exactly the entries read; and if nothing was forged, each checkpoint passed was signed, every signing of it pins the entries up to it in that way, and rows it signed untouched still hold the same records |
| `AuditRuns.SignedOverMissingRows` | internal/audit/audit.go:286-350 | the condition is needed: append, an edit that takes the row away, a timed checkpoint, an edit that puts it back; nothing is forged, and Verify passes the one checkpoint signed, over rows without the record |
| `AuditRuns.SignWhileMissing` | internal/audit/audit.go:286-350 | the two edits and the timed checkpoint between them, from any reliable log with one record |
| `AuditRuns.SameCheckpointSameRecords` | internal/audit/audit.go:603-642 | two verdicts that pass checkpoints with one head read the same entries up to them |
| `AuditRuns.Life` | internal/audit/audit.go:188-464 | one process, from Open to Close or to a crash, with or without edits, keeps the signing history; with none it leaves verifiable tables that extend what it found by exactly the records it stored |
| `AuditRuns.Lives` | internal/audit/audit.go:188-464 | after any number of processes the table holds all they stored, in order, and nothing else |
| `AuditRuns.WholeRun` | internal/audit/audit.go:188-700 | every run of appends, storage failures, checkpoints, closes, crashes and reopens ends in a table whose rows hold exactly all that was stored, in order, column by column, with no break and full counts, for every page size |
| `Redact.HoldIsLocal` | internal/redact/redact.go:41-70 | the longest partial match of the whole input is found in the bytes held and the new ones |
| `Redact.MatchIsLocal` | internal/redact/redact.go:41-70 | a match in a longer input lies in the earlier input or in the held bytes and the new ones |
| `Redact.CoverageIsLocal` | internal/redact/redact.go:41-70 | whether a byte is masked is settled by earlier flags and the buffer |
| `Redact.BufferStep` | internal/redact/redact.go:41-70 | flags carried over and flags found in the buffer are the flags of the whole input |
| `Redact.StreamedOn` | internal/redact/redact.go:41-70 | one buffered write sends exactly the next stretch of the masked input |
| `Redact.StreamedThrough` | internal/redact/redact.go:41-70 | so does a write that skips the buffer |
| `Redact.StreamEnd` | internal/redact/redact.go:74-83 | the held bytes, masked by their flags, complete the masked input |
| `Redact.Writer.constructor` | internal/redact/redact.go:34-36 | a new Writer has sent nothing and holds nothing |
| `Redact.Writer.Write` | internal/redact/redact.go:41-70 | sends the masked input but for the longest suffix that begins a needle and is not all of it, holds exactly that, and leaves no other byte anywhere in its buffer's capacity |
| `Redact.Writer.WriteThrough` | internal/redact/redact.go:41-70 | the path without a copy does the same |
| `Redact.Writer.WriteBuffered` | internal/redact/redact.go:41-70 | the path through the buffer does the same |
| `Redact.Writer.Mark` | internal/redact/redact.go:56-60 | the buffer is extended, its matches are marked, and how much of it to hold back is found |
| `Redact.Writer.ExtendBuf` | internal/redact/redact.go:56-56 | appends in place where there is room, and otherwise moves to a larger array and leaves the old one as it is |
| `Redact.HeldIsLeftover` | internal/redact/redact.go:56-68 | a backing array that is outgrown holds at most a proper beginning of a needle |
| `Redact.Writer.KeepHeld` | internal/redact/redact.go:65-68 | the held bytes move to the front and their old place is wiped |
| `Redact.Writer.Close` | internal/redact/redact.go:74-83 | all output since the last Close is the input since then, masked whole; the buffer is wiped |
| `Redact.Stream` | internal/redact/redact.go:41-95 | every split of the input into writes sends what masking the whole input gives: the same, told by slices of the whole input |
| `Redact.Mask` | internal/redact/redact.go:86-95 | a slice of the input that is a needle becomes as many mask bytes, overlapping ones included; a byte in no such slice stays; the length stays |
| `Redact.MarkNeedle` | internal/redact/redact.go:99-112 | one needle's turn marks exactly the bytes inside its matches |
| `Redact.MarkMatches` | internal/redact/redact.go:99-112 | marks exactly the bytes inside a match of any needle, and keeps earlier marks |
| `Redact.ApplyMask` | internal/redact/redact.go:115-121 | replaces the marked bytes in place and no others |
| `Redact.ContainsAny` | internal/redact/redact.go:123-125 | finds a needle exactly when the bytes are not clean |
| `Redact.PartialMatch` | internal/redact/redact.go:129-141 | the longest suffix that is a proper prefix of some needle |
| `Redact.LongestWith` | internal/redact/redact.go:131-139 | one needle's turn finds any longer such suffix of it |
| `Redact.MaskFor` | internal/redact/redact.go:145-157 | the first mask byte in no needle, each earlier one in a needle it names, or `*` if each is in one |
| `Redact.MaskAvoidsNeedles` | internal/redact/redact.go:145-157 | when some mask byte is in no needle, the one chosen is in none |
| `Redact.MaskedMeans` | internal/redact/redact.go:99-121 | what masking means, told by slices of the input |
| `Redact.MaskedIsClean` | internal/redact/redact.go:86-121 | then no needle occurs anywhere in the masked output |
| `Redact.CleanIsUnchanged` | internal/redact/redact.go:86-95 | input without a needle is unchanged |
| `Redact.MaskingIsIdempotent` | internal/redact/redact.go:86-95 | masking twice is masking once |
| `Redact.FallbackMaskCanMatch` | internal/redact/redact.go:150-157 | needles that hold every mask byte between them can leave a match in the output |
| `SecretCache.Secret.New` | internal/secret/secret.go:46-49 | a new buffer is live and holds the value |
| `SecretCache.Secret.Clone` | internal/secret/secret.go:53-63 | with memory left, a live buffer is copied into one of its own; a released one never is |
| `SecretCache.Secret.Release` | internal/secret/secret.go:104-116 | the value is gone, however often it is called |
| `SecretCache.Entry.Wipe` | internal/resolver/cache.go:122-125 | the timer is stopped and the buffer released |
| `SecretCache.Cache.InTheMap` | internal/resolver/cache.go:42-48 | every entry in the map is live and holds what was read where it says |
| `SecretCache.Cache.Check` | internal/resolver/cache.go:42-48 | a hit exactly when cached from that backend and location less than the TTL ago; it returns the cached bytes unless no memory is left, never finds a released buffer, and the copy was read no longer ago than the TTL |
| `SecretCache.Cache.InsertBy` | internal/resolver/cache.go:67-78 | caches the value with the shorter TTL exactly when open and the snapshot read maps the name that way, otherwise releases it; safe when that snapshot is no longer in effect, since its successor has yet to prune |
| `SecretCache.Cache.Unlocked` | internal/resolver/cache.go:61-79 | while the lock is held a reload may store but not prune, so the config changes only with a prune to come |
| `SecretCache.Cache.Insert` | internal/resolver/cache.go:61-79 | the second half of a request: reads the snapshot and caches by it, with a reload's store, timers, releases and the clock in between; touches no other entry |
| `SecretCache.Cache.Store` | internal/config/running.go:46-65 | the new snapshot is in effect before its prune |
| `SecretCache.Cache.PruneOne` | internal/resolver/cache.go:87-98 | keeps an entry exactly when the new config still caches it and its time is not up |
| `SecretCache.Cache.Prune` | internal/resolver/cache.go:84-99 | an entry stays exactly when the new config still maps and caches its name that way and its time is not up, with the shorter TTL; afterwards every entry agrees with the config in effect |
| `SecretCache.Cache.Fire` | internal/resolver/cache.go:76-76 | a timer may fire long before its callback runs |
| `SecretCache.Cache.Expire` | internal/resolver/cache.go:102-109 | removes exactly its own entry; a stale callback never removes a newer one |
| `SecretCache.Cache.Close` | internal/resolver/cache.go:112-120 | every entry is wiped and the map is empty |
| `SecretCache.Cache.Drop` | internal/secret/secret.go:104-116 | a caller's release touches no entry's buffer |
| `SecretCache.Cache.Others` | internal/resolver/cache.go:42-120 | any interleaving of requests, reloads, timers, callbacks, releases and Close keeps ownership and agreement, and a closed cache stays closed and empty |
| `SecretCache.Cache.Get` | internal/resolver/cache.go:42-79 | a hit returns the bytes cached and asks no Backend; a miss asks, returns the bytes answered, and leaves them cached if the cache is open and the snapshot read caches the name; what is delivered is live, read from its backend and location, no longer ago than its TTL when it began, whatever happened in between |
| `SecretCache.Cache.Fetch` | internal/resolver/cache.go:50-79 | a request that missed asks the Backend, delivers the bytes answered in a live buffer, and caches or releases the value beside it |
| `SecretCache.Run` | internal/resolver/cache.go:63-99 | in every run, once the last reload has pruned, the cache holds only what the config in effect allows, for no longer than it says, live and read where it says |
| `SecretCache.RunPastClose` | internal/resolver/cache.go:111-120 | whatever comes after Close, nothing is cached again and every live buffer is a caller's |
| `Broker.MoveRight` | cmd/tc-exec/main.go:487-490 | the right to run a job moves from the table to the one dispatch that took it |
| `Broker.SpendRight` | cmd/tc-exec/main.go:491-494 | the dispatch that holds the right gives it up for good |
| `Broker.AddRun` | cmd/tc-exec/main.go:491-494 | a run by the holder of the right is the job's first, and its last |
| `Broker.SubmitRights` | cmd/tc-exec/main.go:464-464 | a new job's right to run is in the table, and no run is touched |
| `Broker.SubmitBounds` | cmd/tc-exec/main.go:459-476 | a new job keeps the caps and has a live mailbox in mailbox mode |
| `Broker.Broker.Forget` | cmd/tc-exec/main.go:409-415 | a job deleted can never run |
| `Broker.Broker.Expire` | cmd/tc-exec/main.go:409-415 | exactly the jobs past their time are deleted |
| `Broker.Broker.AddJob` | cmd/tc-exec/main.go:464-476 | one job, and one mailbox in mailbox mode, are added |
| `Broker.Broker.Submit` | cmd/tc-exec/main.go:445-479 | accepted exactly when acceptable, under both caps after expiry, and, with a mailbox, when it could be made and shutdown has not begun; the whole new state |
| `Broker.Broker.Ask` | cmd/tc-exec/main.go:480-486 | a dispatch may arrive over the socket for any id, known or not |
| `Broker.Broker.Begin` | cmd/tc-exec/main.go:481-486 | a worker slot, or refusal when all eight are taken |
| `Broker.Broker.Take` | cmd/tc-exec/main.go:487-490 | the job leaves the table with the dispatch that found it, and the dispatch has it exactly if it was there |
| `Broker.Broker.Start` | cmd/tc-exec/main.go:491-494 | runs the job taken exactly when there was one and its time is not over |
| `Broker.Broker.Dispatched` | cmd/tc-exec/main.go:480-494 | with a slot free, a dispatch of a pending job within its time runs the command submitted |
| `Broker.Broker.RunBySocket` | cmd/tc-exec/main.go:480-494 | so it does over the socket, from any state |
| `Broker.Broker.RunByMailbox` | cmd/tc-exec/mailbox.go:219-272 | and over the job's mailbox, on the byte D |
| `Broker.Broker.Finish` | cmd/tc-exec/main.go:481-494 | the slot is given back once |
| `Broker.Broker.Reply` | cmd/tc-exec/mailbox.go:246-272 | the mailbox that waited leaves, and no other |
| `Broker.Broker.Look` | cmd/tc-exec/mailbox.go:219-225 | a mailbox whose job is gone leaves |
| `Broker.Broker.Read` | cmd/tc-exec/mailbox.go:226-245 | starts one dispatch on the byte D, leaves on any other byte, on time out or on a read error, polls again otherwise |
| `Broker.Broker.Cleanup` | cmd/tc-exec/mailbox.go:205-205 | gives up the job and one active mailbox together |
| `Broker.Broker.CountOut` | cmd/tc-exec/mailbox.go:200-207 | the goroutine leaves the wait group last |
| `Broker.Broker.BeginClose` | cmd/tc-exec/mailbox.go:114-118 | shutdown is marked and stays marked |
| `Broker.Broker.EndClose` | cmd/tc-exec/mailbox.go:119-119 | closeMailbox returns only with the wait group empty |
| `Broker.Broker.NothingLeft` | cmd/tc-exec/mailbox.go:114-125 | after it no mailbox and no worker one started is live, nor can be later, since it holds of every state after |
| `Broker.Broker.Step` | cmd/tc-exec/mailbox.go:139-272 | any step of any goroutine keeps at-most-once, the time limit, the caps and the mailbox invariant, and shutdown is final |
| `Broker.RunFor` | cmd/tc-exec/main.go:443-500 | over all interleavings no command runs twice, each runs its own job's command within its time, the caps of 128 and 8 hold, every pending job has a live mailbox in mailbox mode, and after shutdown no mailbox, none of its dispatches and no pending job is left |
| `Shell.QuoteIsRead` | cmd/tc-exec/main.go:116-116 | a shell reads a quoted string back as it was, quotes included |
| `Shell.DispatchCommandWords` | cmd/tc-exec/main.go:757-768 | a shell reads the dispatch command as exactly the six words meant, whatever bytes they hold |
| `Shell.BoundedOutput.Write` | cmd/tc-exec/main.go:631-645 | over all writes the buffer is the first mebibyte written, and truncation is reported exactly when there was more |
| `OpenBaoWrite.Record.Begin` | plugins/openbao/internal/openbao/openbao.go:358-374 | a write begins with no post made |
| `OpenBaoWrite.Record.Read` | plugins/openbao/internal/openbao/openbao.go:375-382 | a read shows the last version's fields, or none while it is deleted, and its number |
| `OpenBaoWrite.Record.Post` | plugins/openbao/internal/openbao/openbao.go:383-398 | a post adds a version only at the version it read, with its one field set in what it read; after a mismatch it reads again, three times at most; a lost answer ends it |
| `OpenBaoWrite.Record.WriteOther` | plugins/openbao/internal/openbao/openbao.go:354-357 | other clients may write any version |
| `OpenBaoWrite.Record.Delete` | plugins/openbao/internal/openbao/openbao.go:375-382 | and delete or undelete the last one |
| `OpenBaoWrite.Record.Remove` | plugins/openbao/internal/openbao/openbao.go:354-357 | or remove the record with its metadata, which starts its version numbers again |
| `OpenBaoWrite.Record.Others` | plugins/openbao/internal/openbao/openbao.go:354-357 | any number of other writes and clients, step by step, leave history and this write alone |
| `OpenBaoWrite.Record.Attempt` | plugins/openbao/internal/openbao/openbao.go:374-398 | one round: after a mismatch it goes on up to three times; otherwise it is over, with success if the server answers |
| `OpenBaoWrite.Record.WriteCourierKey` | plugins/openbao/internal/openbao/openbao.go:358-400 | at most four posts; lands at most once, if it reports success, and never if it reports a check-and-set failure; if the server answers, refuses and loses nothing, only four mismatches in a row keep it from landing, and alone it meets none; where it landed it kept the other fields of the version it replaced exactly if that is of the record it read, which was live then or had no other field, or agrees with it; with no other clients it always did |
| `OpenBaoWrite.KeptWhenReadWell` | plugins/openbao/internal/openbao/openbao.go:375-387 | what a check-and-set that compares version numbers only keeps of the version it replaces |
| `OpenBaoWrite.NoUpdateIsLost` | plugins/openbao/internal/openbao/openbao.go:354-400 | where each version is a write that kept the version before, every field holds the last value written to it, or what it held before |
| `OpenBaoWrite.Race` | plugins/openbao/internal/openbao/openbao.go:354-400 | in every run of any number of interleaved writes each keeps the fields of the version before under that condition; with no other clients none is lost, and each version is the one before with one field set |
| `OpenBaoWrite.UndeleteLosesAField` | plugins/openbao/internal/openbao/openbao.go:375-394 | delete, read, undelete, post: the post succeeds and a field is gone |
| `OpenBaoWrite.RemovalLosesAField` | plugins/openbao/internal/openbao/openbao.go:375-394 | read, remove, write anew, post: the post succeeds at the number read and the new field is gone |
| `OpenBaoList.LocationInjective` | plugins/openbao/internal/openbao/openbao.go:250-261 | a location names one record and one field |
| `OpenBaoList.PathOkMeans` | plugins/openbao/internal/openbao/openbao.go:421-434 | which paths and prefixes are refused, by the code points in them |
| `OpenBaoList.MatchingMeans` | plugins/openbao/internal/openbao/openbao.go:529-534 | what matches a prefix: path, `data/` on a KV v2 mount, record, `#` and field, if the path is one a location can hold |
| `OpenBaoList.PrunedIsEmpty` | plugins/openbao/internal/openbao/openbao.go:297-299 | a folder that does not overlap the prefix holds nothing wanted |
| `OpenBaoList.FolderWanted` | plugins/openbao/internal/openbao/openbao.go:273-281 | what is wanted through a folder key is what is wanted below that folder |
| `OpenBaoList.RecordWanted` | plugins/openbao/internal/openbao/openbao.go:282-284 | what is wanted through a record key is that record, if its path is spellable and has the prefix |
| `OpenBaoList.KeysPartition` | plugins/openbao/internal/openbao/openbao.go:267-294 | the keys of a folder split what is wanted below it |
| `OpenBaoList.NotYetFound` | plugins/openbao/internal/openbao/openbao.go:250-261 | no location is found twice |
| `OpenBaoList.MatchingPaths` | plugins/openbao/internal/openbao/openbao.go:223-228 | without `#` in the prefix, the flat filter is the wanted records' locations |
| `OpenBaoList.MatchingFields` | plugins/openbao/internal/openbao/openbao.go:209-222 | with `#` it is the one record's fields that have the field prefix |
| `OpenBaoList.Lister.Emit` | plugins/openbao/internal/openbao/openbao.go:250-261 | adds exactly the record's matching locations, or stops at the limit with more to add |
| `OpenBaoList.Lister.ReadRecord` | plugins/openbao/internal/openbao/openbao.go:242-248 | reads one more record, or fails with a limit exceeded |
| `OpenBaoList.Lister.Walk` | plugins/openbao/internal/openbao/openbao.go:267-294 | reads exactly the wanted records below a folder, each once, or fails with a limit exceeded |
| `OpenBaoList.Lister.Visit` | plugins/openbao/internal/openbao/openbao.go:272-292 | follows one key: into a folder that overlaps, to a wanted record, or past it |
| `OpenBaoList.ListField` | plugins/openbao/internal/openbao/openbao.go:209-222 | a prefix that names a whole record yields the flat filter |
| `OpenBaoList.ListPath` | plugins/openbao/internal/openbao/openbao.go:223-228 | any other prefix yields the flat filter, or fails exactly over a limit |
| `OpenBaoList.OneMoreMount` | plugins/openbao/internal/openbao/openbao.go:208-229 | mounts share no location |
| `OpenBaoList.ListPaths` | plugins/openbao/internal/openbao/openbao.go:207-229 | the walk of several mounts under shared limits |
| `OpenBaoList.ListFields` | plugins/openbao/internal/openbao/openbao.go:207-222 | the read of one record, which lies on one mount at most |
| `OpenBaoList.List` | plugins/openbao/internal/openbao/openbao.go:184-232 | sorted and without repeats, exactly the locations that start with the prefix on the mounts it selects; refused exactly for a bad prefix or when these together exceed a limit |
| `OpenBaoList.ListsEverything` | plugins/openbao/internal/openbao/openbao.go:189-206 | List finds every location that starts with the prefix, on whatever mount, exactly when the prefix is not a mount's path but for its slash with a match on another mount that starts with it |
| `OpenBaoList.SecretMissesSecrets` | plugins/openbao/internal/openbao/openbao.go:195-206 | with mounts at `secret/` and `secrets/` the prefix `secret` finds nothing on the second |
| `OpenBaoList.LocationParses` | plugins/openbao/internal/openbao/openbao.go:407-416 | a listed location parses back to its path and field, unless the field has no name |
| `AcmeRenewal.LifetimeIsClamped` | internal/certmanager/certmanager.go:451-459 | saturation never shows, a third is positive, and renewal falls within a lifetime of at least a second |
| `AcmeRenewal.RenewedAtTwoThirds` | internal/certmanager/certmanager.go:451-459 | renewal is two thirds of the way from the first moment to the last, up to rounding, for any lifetime from a second to a hundred years |
| `AcmeRenewal.BackoffDoubles` | internal/certmanager/certmanager.go:357-363 | the wait after the k-th failure in a row is thirty seconds doubled k times, up to an hour |
| `AcmeRenewal.ServedAfterWrites` | internal/certmanager/certmanager.go:336-370 | a pair is served only right after the Backend took its key and then its chain, byte for byte as issued, with no order in between |
| `AcmeRenewal.IssuedThenServed` | internal/certmanager/certmanager.go:336-370 | after an issuance, up to the next order, that pair waits or is the one in service |
| `AcmeRenewal.OrdersKeepTheirDistance` | internal/certmanager/certmanager.go:309-371 | of two orders in a row, the first failed and the next waited its backoff, or its pair was written and served and the next waited a third of its lifetime and until its renewal |
| `AcmeRenewal.Manager.LoadStored` | internal/certmanager/certmanager.go:287-307 | nothing happens before the Backend answers; a usable stored certificate is served |
| `AcmeRenewal.Manager.Obtain` | internal/certmanager/certmanager.go:414-428 | orders only when it may; yields an issued pair with its key, or a failure and nothing pending |
| `AcmeRenewal.Manager.StorePair` | internal/certmanager/certmanager.go:434-447 | writes the key and then the chain, unwiped; what it returns is the very pair issued, right after both writes |
| `AcmeRenewal.Manager.ObtainAndStore` | internal/certmanager/certmanager.go:336-363 | a pair that waits is stored before another is ordered; if nothing fails, the pair is issued and stored |
| `AcmeRenewal.Manager.Serve` | internal/certmanager/certmanager.go:369-369 | a pair is put into service only with both its writes just made |
| `AcmeRenewal.Manager.Run` | internal/certmanager/certmanager.go:284-371 | every event of every run is one the log so far allows: backoff waits, order spacing, no order over an unserved pair, and both writes before serving; if nothing fails, a certificate is served after the first turn and at least every second turn renews |
| `AcmeRenewal.RunFor` | internal/certmanager/certmanager.go:284-371 | the same from a fresh manager |
| `Dns01.WithoutValue` | internal/dnsprovider/dnsprovider.go:209-212 | exactly that value is gone, the others keep their order |
| `Dns01.PresentAgrees` | internal/dnsprovider/dnsprovider.go:201-207 | setting a record of its own, there already or not, changes nothing else in the zone |
| `Dns01.CleanupAgrees` | internal/dnsprovider/dnsprovider.go:31-33 | nor does removing one |
| `Dns01.Restored` | internal/acmecert/acmecert.go:265-282 | with all its records gone the zone is what it was without them, and what it was at all exactly if none of them was there |
| `Dns01.Order.Present` | internal/acmecert/acmecert.go:301-307 | a call that fails may have taken effect; either way only a pending record changed |
| `Dns01.Order.Cleanup` | internal/acmecert/acmecert.go:273-281 | a call that succeeds leaves the value gone |
| `Dns01.Order.Accept` | internal/acmecert/acmecert.go:316-320 | the CA is asked to look only at a record that is there |
| `Dns01.Order.Solve` | internal/acmecert/acmecert.go:283-327 | the records pending are exactly those the answers got through ask for, on every exit; it stops short only at an answer it cannot use or right after a record it could not set; every record is set before any is looked at; if nothing fails, the CA is asked to look at each record asked for, in order, and it succeeds |
| `Dns01.Order.RemoveAll` | internal/acmecert/acmecert.go:273-282 | every pending record still there afterwards was warned of |
| `Dns01.Order.AuthorizeByDNS` | internal/acmecert/acmecert.go:265-327 | on every exit the zone differs at most by its own records, each one left was warned of, and without a warning every TXT set is back to its earlier values in order exactly if its values were absent before |
| `Dns01.RunOrder` | internal/acmecert/acmecert.go:265-327 | the same seen from outside: nothing foreign is lost, nothing is left unannounced |
| `Dns01.RemovesWhatWasThere` | internal/acmecert/acmecert.go:265-327 | a zone that already holds the value asked for loses it, with no call failing and no warning |
| `PathPolicy.DecodePath` | internal/config/pathprefix.go:72-91 | the text each segment unescapes to, or nothing exactly if one does not unescape to valid text or holds the name `.` or `..` between its ends or slashes of either kind, or before `;`; told without taking the text apart |
| `PathPolicy.DecodeAllFails` | internal/config/pathprefix.go:78-89 | a path is refused exactly when one of its segments is |
| `PathPolicy.ForwardedPath` | internal/agentapi/proxy.go:563-582 | the path after four pieces without slashes, each with its slash; refused exactly if a segment of it does not unescape or holds such a name |
| `PathPolicy.AfterFour` | internal/agentapi/proxy.go:564-568 | what follows four pieces without slashes and their slashes is the rest |
| `PathPolicy.FourPieces` | internal/agentapi/proxy.go:564-568 | and if there is a rest, the path is four such pieces and it |
| `PathPolicy.NamesAreDots` | internal/config/pathprefix.go:83-87 | a segment that holds such a name has a part decodePath refuses |
| `PathPolicy.DotsAreNames` | internal/config/pathprefix.go:83-87 | and a segment with such a part holds such a name |
| `PathPolicy.SegmentIsSplit` | internal/config/pathprefix.go:78-78 | a stretch without slashes from one slash or end to the next is a segment |
| `PathPolicy.SplitPieces` | internal/config/pathprefix.go:78-78 | segments hold no slash |
| `PathPolicy.ForwardedDecodes` | internal/agentapi/proxy.go:563-582 | a path forwarded fails the Policy's decoding exactly for invalid UTF-8 |
| `PathPolicy.EscapedByteDecodesAlike` | internal/config/pathprefix.go:79-80 | a literal byte and its escape decode alike |
| `PathPolicy.EncodingChangesNothing` | internal/config/pathprefix.go:72-91 | percent-encoding a byte of a segment leaves the decoded path as it was |
| `PathPolicy.ParsePathPrefix` | internal/config/pathprefix.go:27-54 | accepted exactly when every segment parses; no segment is a dot segment or holds a control character, a slash of either kind or `;`, even escaped; the trailing slash goes |
| `PathPolicy.PlainHasNoDots` | internal/config/pathprefix.go:40-50 | a prefix segment is never one decodePath refuses |
| `PathPolicy.PrefixMatchesItself` | internal/config/pathprefix.go:63-66 | every parsed prefix matches its own text |
| `PathPolicy.PrefixMatchesBelow` | internal/config/pathprefix.go:63-66 | and every path below it that decodes |
| `PathPolicy.PrefixMatchesWholeSegments` | internal/config/pathprefix.go:12-15 | but none that goes on in its last segment |
| `PathPolicy.UnreservedParses` | internal/config/pathprefix.go:24-24 | a segment of unreserved characters is accepted as it stands |
| `Access.AuthorizeProxy` | internal/access/access.go:309-333 | allowed exactly when one single entry admits both method and path; otherwise the furthest any entry got, as a function of the set of entries |
| `Access.JudgeMeans` | internal/access/access.go:309-333 | the verdict and each reason told entry by entry: an entry counts only for its Secret and Proxy Delivery, missing limits admit all |
| `Access.OtherEntriesDoNotMatter` | internal/access/access.go:316-318 | an entry without Proxy Delivery, or for another Secret, changes no verdict |
| `Access.WhyNotMore` | internal/access/access.go:314-330 | what one more entry does to the verdict and the reason |
| `Access.OrderDoesNotMatter` | internal/access/access.go:309-333 | neither the order of Policies nor repeating one shows in the verdict or the reason |
| `Access.MorePoliciesAllowMore` | internal/access/access.go:309-333 | more Policies never take a Delivery away |
| `Access.EncodingChangesNoVerdict` | internal/access/access.go:304-333 | percent-encoding a byte of the path changes no verdict and no reason |
| `Percent.EscapeRoundTrip` | internal/agentapi/proxy.go:603-612 | unescaping gives back what was escaped, as a path or as a query component |
| `Percent.EscapeIsPlain` | internal/dnsprovider/sigv4/sigv4.go:127-142 | escaped text holds no delimiter of a query |
| `Percent.EscapeOneByte` | internal/dnsprovider/sigv4/sigv4.go:127-142 | unreserved bytes stay; any other becomes a percent sign and two capital hex digits, or a plus sign for a space where that is asked for |
| `Percent.HexDigits` | internal/config/pathprefix.go:79-80 | hex digits of either case mean the same, and nothing else is one |
| `Percent.UnescapeConcat` | internal/config/pathprefix.go:79-80 | text that unescapes on its own does so in front of anything |
| `Percent.UnreservedIsItself` | internal/config/config.go:1268-1277 | a parameter name a template may give unescapes to itself |
| `Query.KeepParses` | internal/agentapi/proxy.go:663-675 | dropping raw pairs by key is dropping parsed pairs by key |
| `Query.KeepSolid` | internal/agentapi/proxy.go:663-675 | empty pairs do not matter to what is dropped |
| `Query.SplitJoin` | internal/agentapi/proxy.go:663-675 | joined pairs split back into themselves |
| `Query.JoinSplit` | internal/agentapi/proxy.go:663-675 | a query split and joined is itself |
| `Query.WithoutParam` | internal/agentapi/proxy.go:663-675 | what is left reads as the query without the parameter, is made of the same bytes in the same order, and is the query itself if it had none |
| `Query.InjectedSegment` | internal/agentapi/proxy.go:268-274 | the added pair reads as the template's name and the Secret |
| `Query.SegmentSays` | internal/agentapi/proxy.go:663-675 | what a pair reads as, by where its first `=` is |
| `Query.Added` | internal/agentapi/proxy.go:268-274 | appending a pair adds exactly what it reads as, for an empty query too |
| `Query.Rewrite` | internal/agentapi/proxy.go:248-274 | for every query and Secret: exactly one value for the template's parameter, the Secret; every pair but it and the Agent Token's keeps its bytes and order, and is there as often as before |
| `SigV4.AwsEscape` | internal/dnsprovider/sigv4/sigv4.go:127-142 | the loop computes the escape that percent-decoding undoes (sections 2.1 and 2.3 of RFC 3986) |
| `SigV4.JoinDeterminesPairs` | internal/dnsprovider/sigv4/sigv4.go:118-122 | the joined string determines the escaped pairs |
| `SigV4.SamePairsSameEscapes` | internal/dnsprovider/sigv4/sigv4.go:104-111 | the multiset of escaped pairs determines the multiset of pairs |
| `SigV4.PairsAreOrdered` | internal/dnsprovider/sigv4/sigv4.go:112-117 | the sort's comparison is a total order |
| `SigV4.CanonicalIsInjective` | internal/dnsprovider/sigv4/sigv4.go:104-123 | two lists of pairs give one string exactly when they hold the same pairs, each as often |
| `SigV4.CanonicalReads` | internal/dnsprovider/sigv4/sigv4.go:104-123 | the string splits at `&` into the query's pairs, each as often as it holds it, as escaped name, `=` and escaped value, in ascending order of names and then values |
| `SigV4.AnyOrder` | internal/dnsprovider/sigv4/sigv4.go:107-111 | lists of one query's pairs in any order give one string |
| `SigV4.CanonicalQuery` | internal/dnsprovider/sigv4/sigv4.go:104-123 | the string of the query's pairs in any order, so map iteration order does not show |
| `SigV4.SameString` | internal/dnsprovider/sigv4/sigv4.go:104-123 | two queries give one string exactly when they hold every pair equally often |
| `Ordering.SortIgnoresOrder` | internal/dnsprovider/sigv4/sigv4.go:112-117 | sorting by a total order forgets exactly the order of its input |
| `Ordering.StringsAreOrdered` | plugins/openbao/internal/openbao/openbao.go:230-230 | comparing strings byte by byte is a total order |
| `Ordering.LeqMeans` | internal/dnsprovider/sigv4/sigv4.go:112-117 | that order is decided by the first place where two strings differ |

## Left out

- AuditFormat.MessageInjective: sequence numbers and times are taken to fit in 64 bits; wrap-around is not modelled.
- AuditLog.Log.Verify: a database read that fails makes the call fail; that path, SQL, JSON text, SHA-256 and Ed25519 themselves are not modelled. Records are compared as encoded entries; where the encoding loses something, such as bytes that are no UTF-8, it does not determine the raw row. With an editor at work during the call the verdict is about the entries as they were read; what it says about checkpoints needs that nobody edits meanwhile.
- AuditLog.Log.Store: an INSERT is atomic and truthful about its outcome; the copy of each record on the audit stream is not modelled.
- Redact.Writer.Write: the underlying write succeeds; after one that fails the Delivery is given up.
- SecretCache.Cache.Fire: durations are unbounded integers.
- SecretCache.Secret.Clone: locked memory is only there or not there.
- Broker.Broker.Start: the command's output, its cancellation, and the sandbox are not modelled; ids are fresh by assumption; FIFOs, inodes and file permissions are not modelled.
- OpenBaoWrite.Record.WriteCourierKey: KV v2 only, since KV v1 has no check-and-set; the location and UTF-8 checks before the loop are not part of it.
- OpenBaoList.List: the mounts are those the server reports, none within another; calls that fail, and the cache of mounts, are not modelled.
- AcmeRenewal.Manager.Run: that it renews is claimed for runs in which nothing fails; after failures only spacing and order are, since an unstored pair that expires keeps failing to store.
- Dns01.Order.Present: one provider call is atomic, and nobody else edits the zone during the order; zone lookup and the vendors' APIs are not modelled.
- PathPolicy.EncodingChangesNothing: the byte encoded stands on its own, not inside an escape; what is valid UTF-8 is a parameter.
- Query.Rewrite: the standard library's own clean-up of unparsable queries before it is not modelled; the result holds for every query, cleaned or not.
- Header and basic auth Injection Templates, and finding the Agent Token in a request.
- HTTP servers and clients, TLS, gRPC, plugin supervision, process hardening, memory locking.
- Config validation other than path prefixes and query names, presets, the command line, the admin API and token storage: outside the components above.
