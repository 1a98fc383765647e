# P2PK walker model

The program walks a Bitcoin node block by block over RPC and keeps a running
count of pay-to-public-key (P2PK) outputs in `out.csv`. It writes one row per
height: height, block date, P2PK address count and P2PK coin total.

When it starts, it reads `out.csv` back and resumes:

- the resume height is the first field of the last line;
- the address count is the third field of the last line.

It then walks up to the height of the active chain tip. For each block:

- it adds one for every P2PK output;
- from the third transaction on, it looks up the transaction each input
  spends, and takes away one for every P2PK output of that whole transaction,
  unless it is a coinbase;
- it appends the row to its buffer;
- at every height that is a multiple of 1000, it rewrites the file with the
  buffer joined by newlines.

The model is a set of Dafny modules, one per concern:

- `Results`: `Option` and `Result` for every fallible step.
- `RustText`: Rust's `str::lines`, `split(',')`, `join("\n")`, decimal
  `Display`, and `parse::<u64>` / `parse::<i32>`, with their round trips.
- `Int32`: the `i32` counter's two's-complement wrap-around.
- `Csv`: the row format, the header, and the recovery of the resume height and
  the count from the file.
- `ChainTips`: the choice of the active tip.
- `Eta`: the days/hours/minutes/seconds split of the estimated time left.
- `Accounting`: the per-block pass. It has imperative methods for the walker's
  loops, each proved against a recursive specification of the block's effect.
- `Walker`: one height of the loop (`Step`), the loop itself (`SyncFrom`, and
  the `Sync` method with its invariant), and the whole run (`Run` /
  `Walked`). It also holds the lemmas about rows, flushes and restarts.

The node is given as values:

- a map from height to block stands for `get_block_hash` + `get_block`;
- a map from transaction id to transaction stands for `get_raw_transaction`.

A missing entry is the RPC error that ends the run. The file is a string: the
content read at start, and afterwards what the last flush wrote.

Two behaviours of the program are stated as lemmas rather than corrected:

- The header is never written to a new file. The comment at src/main.rs:21
  says it is, but the buffer that holds it is replaced by the file's lines at
  src/main.rs:44 (`Walker.FreshFileHasNoHeader`).
- A restart resumes at the last stored height rather than after it. So that
  block is processed twice: its row appears twice and its effect is counted
  twice (`Walker.RestartRepeatsFlushedRow`,
  `Walker.RestartCountsFlushedBlockTwice`).

## Model

| member | source | states |
|---|---|---|
| RustText.Lines | src/main.rs:44 | `lines()` yields no line holding '\n', and yields nothing exactly for the empty file |
| RustText.LinesJoin | src/main.rs:176-179 | reading back with `lines()` a buffer written with `join("\n")` gives the buffer again, when no line holds '\n' or ends in '\r' and the last line is not empty |
| RustText.LastLineOfJoin | src/main.rs:47 | the last line read back from a joined buffer is the buffer's last element, whatever the earlier lines hold |
| RustText.Split | src/main.rs:48 | `split(',')` always yields at least one field, and no field holds a comma; so `fields.first()` never fails |
| RustText.SplitJoin | src/main.rs:48 | splitting fields joined by a separator none of them holds gives the fields back |
| RustText.ParseU64OfNatToString | src/main.rs:50 | every `u64` printed in decimal parses back as a `u64` to the same value |
| RustText.ParseI32OfIntToString | src/main.rs:65 | every `i32` printed in decimal, sign included, parses back as an `i32` to the same value |
| RustText.ParseRejectsNonNumeric | src/main.rs:50 | a field that starts with neither a digit nor a sign parses as neither `u64` nor `i32` |
| Int32.Wrap | src/main.rs:123 | the counter after `+=`/`-=` always lies in the `i32` range |
| Int32.WrapCongruent | src/main.rs:143 | the wrapped counter differs from the exact sum by a multiple of 2^32 |
| Int32.WrapAdd | src/main.rs:120-149 | wrapping after each step equals wrapping the whole sum once |
| Csv.HeaderFields | src/main.rs:15 | the header is a single line whose comma-separated fields are the four column names |
| Csv.RowFields | src/main.rs:160-162 | a row holds no newline, and splitting it on commas gives back height, date, count and coins, in order, when date and coins hold no comma |
| Csv.RowEnd | src/main.rs:160-162 | a row is never empty, and it ends in '\r' exactly when its coin column does |
| Csv.ResumeHeight | src/main.rs:47-59 | the resume height is at least 1, so `resume_height - 1` cannot underflow |
| Csv.ResumeHeightCases | src/main.rs:47-59 | a case-by-case statement of the definition: resume height is 1 exactly when there is no line, or the first field is not a `u64`, or it is 0 or 1; otherwise it is the stored height |
| Csv.ResumeAddresses | src/main.rs:62-71 | the recovered count lies in the `i32` range |
| Csv.ResumeAddressesCases | src/main.rs:62-71 | a case-by-case statement of the definition: the recovered count is the third field when there is one and it parses as `i32`, and 0 in every other case |
| Csv.EmptyFileStartsAtOne | src/main.rs:47-71 | an empty file resumes at height 1 with count 0 |
| Csv.HeaderOnlyLastFields | src/main.rs:58 | a file holding only the header, with or without a final newline, has the column names as its last fields |
| Csv.HeaderOnlyStartsAtOne | src/main.rs:58-59 | a file holding only the header resumes at height 1 with count 0 |
| Csv.LastFieldsOfRow | src/main.rs:47-48 | when the file ends with a row, its last fields are that row's four values |
| Csv.ResumeFromRow | src/main.rs:47-71 | round trip: a file ending with the row for height h >= 1 and count a resumes at exactly h with exactly a |
| ChainTips.ActiveTipHeight | src/main.rs:99-105 | the result is the height of the first tip whose status is active, and is absent exactly when no tip is active |
| Eta.Split | src/main.rs:166-170 | days*86400 + hours*3600 + minutes*60 + seconds is the ETA, with hours < 24, minutes < 60 and seconds < 60 |
| Eta.SplitUnique | src/main.rs:166-170 | this is the only split with that total and those bounds |
| Accounting.P2pkCount | src/main.rs:121-126 | a transaction never has more P2PK outputs than outputs (a simple bound) |
| Accounting.CreditOutputs | src/main.rs:121-126 | the output loop leaves the counter at the old value plus the number of P2PK outputs, wrapped |
| Accounting.DebitOutputs | src/main.rs:141-146 | the loop over a spent transaction's outputs leaves the counter at the old value minus its P2PK outputs, wrapped |
| Accounting.DebitInputs | src/main.rs:130-147 | the input loop fails with the first unknown transaction id; otherwise its result is the old value minus the charges, wrapped. A coinbase reference charges nothing; any other reference charges every P2PK output of the referenced transaction |
| Accounting.TxStep | src/main.rs:120-149 | one transaction credits its outputs and, from the third on, debits its spends; the rest of the block then completes the block's effect |
| Accounting.AccountBlock | src/main.rs:120-149 | the block pass yields the counter moved by the block's effect, wrapped, or the first failed lookup |
| Accounting.AddOutput | src/main.rs:121-126 | one more output on any transaction raises the block's effect by one exactly when it is P2PK |
| Accounting.AddInput | src/main.rs:129-147 | one more input: nothing changes for the first two transactions and for a coinbase reference; an unknown reference fails the block; otherwise the effect drops by all P2PK outputs of the referenced transaction |
| Accounting.BlockEffectOkIff | src/main.rs:129-132 | the block pass succeeds exactly when every input of every transaction after the first two names a transaction the node knows |
| Accounting.EffectAtMostCreated | src/main.rs:120-149 | a block's effect never exceeds the P2PK outputs it creates, and equals them when the block has at most two transactions |
| Walker.Step | src/main.rs:116-181 | after a successful height the counter is still an `i32` |
| Walker.StepEffect | src/main.rs:116-181 | an unfolding of the definition, stated as the rule for one height: a height succeeds exactly when the block exists and all lookups succeed. On success the counter moves by the block's effect, exactly one row for that height is appended, and the file is rewritten with the whole buffer exactly when the height is a multiple of 1000 |
| Walker.StepCount | src/main.rs:116-149 | an unfolding of the definition: a height whose block has effect d always succeeds and moves the counter by d, wrapped |
| Walker.Sync | src/main.rs:115-184 | the loop method ends in the state, or the first failure, that the loop specification gives |
| Walker.Start | src/main.rs:44-71 | the starting count is an `i32` |
| Walker.Run | src/main.rs:44-115 | the run method gives the outcome and the file content that the run specification gives |
| Walker.SyncKeepsOut | src/main.rs:115 | the loop never removes or changes a buffered line, and when resume >= tip nothing at all changes |
| Walker.SyncTotal | src/main.rs:115-149 | the loop fails with the first failure among the blocks from resume to tip - 1, and otherwise ends with the starting count moved by the sum of their effects, wrapped |
| Walker.SyncRows | src/main.rs:115-162 | a loop that reaches the tip appends exactly tip - resume rows, one for each height from resume to tip - 1, in order; the row for height h carries the starting count moved by the effects of the blocks from resume to h, wrapped |
| Walker.UnflushedRowsNotSaved | src/main.rs:176-179 | over heights that are not multiples of 1000 the file is left as it was, so rows after the last flush are not saved |
| Walker.FlushedFileReadsBack | src/main.rs:176-179 | a flush writes the buffer joined by '\n', and reading that file back gives the buffer, when no buffered line holds a '\n' or ends in '\r' (empty lines included) |
| Walker.ResumeAfterFlush | src/main.rs:176-179 | after a flush at h >= 1, the file resumes at height h with the count held after block h |
| Walker.RestartResumesAtFlush | src/main.rs:47-71 | a walk restarted from that file resumes at h with the count held after block h |
| Walker.RestartEndsWithFlushedRow | src/main.rs:44 | the lines a restart reads back from the file flushed at h end with a row for h |
| Walker.RestartRepeatsFlushedRow | src/main.rs:47-59 | a restart processes h again and appends a second row for h right after the first (nothing is claimed about the two rows' coin columns) |
| Walker.RestartCountsFlushedBlockTwice | src/main.rs:62-71 | after that restart, the count is the count before h plus twice block h's effect |
| Walker.FreshFileHasNoHeader | src/main.rs:18-44 | a walk started from an empty file never writes the header: its buffer starts empty, and after the first height it holds only that height's row, which is not the header |
| Walker.WalkedOutcome | src/main.rs:99-184 | with an active tip, the run succeeds exactly when every block from the resume height up to the tip exists and passes its lookups, and otherwise fails with the first failure among them |
| Walker.WalkedTrivialCases | src/main.rs:99-115 | a case-by-case statement of the definition: with no active tip the run fails and leaves the file alone; with the tip at or below the resume height the run writes nothing |

## Left out

- `src/p2pktrnx.rs` is not part of this model. It builds a demonstration PSBT entirely from library calls and is not used by the walker.
- The coin total (`f64`, src/main.rs:72-81, 124, 144) is not modelled. Each block carries the text of its fourth column as an opaque string, with no comma and no newline. So in the model a row's coin column does not depend on the walk's history: the resumed total and the blocks processed since. In the source it does. The lemmas about rows therefore leave the coin column unconstrained.
- Block dates (src/main.rs:152-157) are not computed. `chrono` formatting, and its panic on an invalid timestamp, become an opaque date string per block.
- Script classification (`is_p2pk`) and `is_coinbase` are boolean fields of the model's outputs and transactions.
- The spent output index (`vout`) is carried but unused, as in the source: an input is charged every P2PK output of the transaction it references.
- Environment variables, the RPC client and its authentication (src/main.rs:84-95) are left out. The node's answers are maps, and a missing entry is the RPC error.
- The progress bar and every `println` are left out. This includes the `{:02}` formatting of the ETA (src/main.rs:171) and the per-transaction debug print (src/main.rs:138). The ETA's input is a parameter, since it comes from the progress bar's clock.
- The first read and `split("\n")` (src/main.rs:18-42) are left out. They only fill a buffer that line 44 replaces, and their `is_empty` test can never succeed.
- File I/O errors are left out: opening, creating and writing `out.csv`.
- A failed run is modelled by its last saved file and the state before the failing height. The process's error exit is not modelled.
- A missing active tip (src/main.rs:104) becomes the `NoActiveTip` outcome rather than a panic.
- Int32.Wrap: models a release build, where `+= 1` and `-= 1` wrap around. A debug build panics on `i32` overflow instead.
- Walker.FlushedFileReadsBack: holds only when the buffered lines and the new coin column do not end in '\r' (empty buffered lines, such as a file ending in a blank line, are covered). `lines()` already drops the '\r' of each "\r\n", so a file with CRLF line ends reads back unchanged after a rewrite. Only a buffered line that still ends in '\r' loses it when read back: an unterminated last line ending in '\r', or a line that ended in "\r\r\n".
