/** The walker's main loop (src/main.rs:44-184): recover the resume point
    from `out.csv`, choose the active chain tip, then for each height from
    the resume height up to (not including) the tip, account for the block,
    append one row to `out` and rewrite the file with `out` at every height
    that is a multiple of 1000.

    The node is given as values: `chain` answers `get_block_hash` followed
    by `get_block` for a height (a missing height is the RPC error the
    walker's `?` passes up) and `index` answers `get_raw_transaction`. The
    file is a string: what the walker reads at start and what it last wrote. */
module Walker {
  import opened Results
  import opened RustText
  import opened Int32
  import opened Csv
  import opened ChainTips
  import opened Accounting

  /** A block as the walker uses it: the date its header time formats to,
      the coin-total column printed after it, and its transactions. */
  datatype Block = Block(date: string, coins: string, txs: seq<Tx>)

  type Chain = map<nat, Block>

  /** The loop's state: the `i32` address counter, the `out` buffer of
      lines, and the content of `out.csv`. */
  datatype Walk = Walk(addresses: int, out: seq<string>, file: string)

  datatype Outcome = Done | Failed(error: WalkError)

  /** The flush rule (src/main.rs:176). */
  predicate ShouldFlush(height: nat) {
    height % 1000 == 0
  }

  /** One height of the loop (src/main.rs:116-181). */
  function Step(height: nat, chain: Chain, index: TxIndex, w: Walk): (r: Result<Walk, WalkError>)
    ensures r.Ok? ==> IsI32(r.value.addresses)
  {
    if height !in chain then Err(UnknownHeight(height))
    else
      var block := chain[height];
      match Applied(w.addresses, BlockEffect(block.txs, index))
      case Err(e) => Err(e)
      case Ok(a) =>
        var out := w.out + [FormatRow(height, block.date, a, block.coins)];
        Ok(Walk(a, out, if ShouldFlush(height) then Join(out, '\n') else w.file))
  }

  /** The loop over `height..tip` (src/main.rs:115): the state after the
      last height, or the first failure with the state before it. */
  function SyncFrom(height: nat, tip: nat, chain: Chain, index: TxIndex, w: Walk): (Outcome, Walk)
    decreases tip - height
  {
    if height >= tip then (Done, w)
    else match Step(height, chain, index, w)
      case Err(e) => (Failed(e), w)
      case Ok(w') => SyncFrom(height + 1, tip, chain, index, w')
  }

  /** The summed effect of the blocks at `height, ..., end - 1` on the
      counter, or the failure the first of them meets: a missing height,
      or a failed lookup in that height's block pass. */
  function EffectsFrom(height: nat, end: nat, chain: Chain, index: TxIndex): Result<int, WalkError>
    decreases end - height
  {
    if height >= end then Ok(0)
    else if height !in chain then Err(UnknownHeight(height))
    else match BlockEffect(chain[height].txs, index)
      case Err(e) => Err(e)
      case Ok(d) => AddEffect(d, EffectsFrom(height + 1, end, chain, index))
  }

  /** One block's effect `d` followed by `rest`. */
  function AddEffect(d: int, rest: Result<int, WalkError>): Result<int, WalkError> {
    match rest
    case Err(e) => Err(e)
    case Ok(s) => Ok(d + s)
  }

  /** The height loop, as the walker runs it. */
  method Sync(resume: nat, tip: nat, chain: Chain, index: TxIndex, w0: Walk)
    returns (outcome: Outcome, w: Walk)
    requires IsI32(w0.addresses)
    ensures (outcome, w) == SyncFrom(resume, tip, chain, index, w0)
  {
    var addresses, out, file := w0.addresses, w0.out, w0.file;
    var height := resume;
    while height < tip
      invariant IsI32(addresses)
      invariant SyncFrom(height, tip, chain, index, Walk(addresses, out, file))
             == SyncFrom(resume, tip, chain, index, w0)
      decreases tip - height
    {
      if height !in chain {
        return Failed(UnknownHeight(height)), Walk(addresses, out, file);
      }
      var block := chain[height];
      var accounted := AccountBlock(addresses, block.txs, index);
      if accounted.Err? {
        return Failed(accounted.error), Walk(addresses, out, file);
      }
      addresses := accounted.value;
      out := out + [FormatRow(height, block.date, addresses, block.coins)];
      if height % 1000 == 0 {
        file := Join(out, '\n');
      }
      height := height + 1;
    }
    outcome, w := Done, Walk(addresses, out, file);
  }

  /** The state the walker starts the loop from, given the file content. */
  function Start(content: string): (w: Walk)
    ensures IsI32(w.addresses)
  {
    Walk(ResumeAddresses(content), Lines(content), content)
  }

  /** The whole run: resume point, tip choice, loop. Only the file survives
      the run, so that is what the result keeps. */
  function Walked(content: string, tips: seq<ChainTip>, chain: Chain, index: TxIndex): (Outcome, string) {
    match ActiveTipHeight(tips)
    case None => (Failed(NoActiveTip), content)
    case Some(tip) =>
      var (outcome, w) := SyncFrom(ResumeHeight(content), tip, chain, index, Start(content));
      (outcome, w.file)
  }

  /** `main` from the file read on (src/main.rs:44-184). */
  method Run(content: string, tips: seq<ChainTip>, chain: Chain, index: TxIndex)
    returns (outcome: Outcome, file: string)
    ensures (outcome, file) == Walked(content, tips, chain, index)
  {
    var out := Lines(content);
    var resume := ResumeHeight(content);
    var addresses := ResumeAddresses(content);
    var tip := ActiveTipHeight(tips);
    if tip.None? {
      return Failed(NoActiveTip), content;
    }
    // The progress bar's `inc(resume_height - 1)` cannot underflow.
    assert resume >= 1;
    var after;
    outcome, after := Sync(resume, tip.value, chain, index, Walk(addresses, out, content));
    file := after.file;
  }

  // ---------------------------------------------------------------------
  // Properties of the loop

  /** `row` is the data row for height `height` of `block` carrying the
      address count `a`, whatever its coin column holds. */
  ghost predicate RowWith(row: string, height: nat, block: Block, a: int) {
    exists coins :: row == FormatRow(height, block.date, a, coins)
  }

  /** `row` is a data row for height `height` of `block` with some `i32`
      address count. */
  ghost predicate IsRowFor(row: string, height: nat, block: Block) {
    exists a, coins :: IsI32(a) && row == FormatRow(height, block.date, a, coins)
  }

  /** One height appends exactly one row, for that height, carrying the
      counter moved by the block's effect, and rewrites the file with the
      whole buffer exactly at multiples of 1000. */
  lemma StepEffect(height: nat, chain: Chain, index: TxIndex, w: Walk)
    ensures var r := Step(height, chain, index, w);
      r.Ok? <==> height in chain && BlockEffect(chain[height].txs, index).Ok?
    ensures var r := Step(height, chain, index, w);
      r.Ok? ==>
        && r.value.addresses == Wrap(w.addresses + BlockEffect(chain[height].txs, index).value)
        && r.value.out == w.out + [FormatRow(height, chain[height].date, r.value.addresses, chain[height].coins)]
        && r.value.file == (if height % 1000 == 0 then Join(r.value.out, '\n') else w.file)
  {
  }

  /** `rows[k]` is the data row for height `height + k`, carrying the count
      `a0` moved by the blocks `height, ..., height + k`, wrapped. */
  ghost predicate RowAt(rows: seq<string>, k: nat, height: nat, chain: Chain, index: TxIndex, a0: int)
    requires k < |rows|
  {
    var total := EffectsFrom(height, height + k + 1, chain, index);
    height + k in chain && total.Ok?
    && RowWith(rows[k], height + k, chain[height + k], Wrap(a0 + total.value))
  }

  /** `rows` are the data rows for the consecutive heights from `height`
      on, of a walk whose count was `a0` before `height`. */
  ghost predicate RowsFrom(rows: seq<string>, height: nat, chain: Chain, index: TxIndex, a0: int) {
    forall k: nat :: k < |rows| ==> RowAt(rows, k, height, chain, index, a0)
  }

  /** A successful step appends one row for its height, carrying the new
      count, and keeps the rest. */
  lemma StepAppendsRow(height: nat, chain: Chain, index: TxIndex, w: Walk)
    requires Step(height, chain, index, w).Ok?
    ensures var w1 := Step(height, chain, index, w).value;
      height in chain && w1.out == w.out + [w1.out[|w.out|]]
      && RowWith(w1.out[|w.out|], height, chain[height], w1.addresses)
      && IsRowFor(w1.out[|w.out|], height, chain[height])
  {
    StepEffect(height, chain, index, w);
    var w1 := Step(height, chain, index, w).value;
    assert IsI32(w1.addresses);
    assert RowWith(w1.out[|w.out|], height, chain[height], w1.addresses) by {
      assert w1.out[|w.out|] == FormatRow(height, chain[height].date, w1.addresses, chain[height].coins);
    }
  }

  /** The blocks from `height` sum to the first one's effect plus the rest. */
  lemma EffectsFromCons(height: nat, end: nat, chain: Chain, index: TxIndex, d: int)
    requires height < end && height in chain && BlockEffect(chain[height].txs, index) == Ok(d)
    ensures EffectsFrom(height, end, chain, index) == AddEffect(d, EffectsFrom(height + 1, end, chain, index))
  {
  }

  /** The loop's result `r` agrees with the summed effect `total` of its
      blocks, starting from count `a`: it failed with `total`'s failure,
      or it is done with `a` moved by `total`, wrapped. */
  ghost predicate AgreesWith(r: (Outcome, Walk), a: int, total: Result<int, WalkError>) {
    match total
    case Err(e) => r.0 == Failed(e)
    case Ok(t) => r.0 == Done && r.1.addresses == Wrap(a + t)
  }

  /** A loop result that agrees with `rest` from the count after a block of
      effect `d` agrees with the block followed by `rest` from the count
      before it. */
  lemma AgreesCons(r: (Outcome, Walk), a: int, d: int, rest: Result<int, WalkError>, a1: int)
    requires a1 == Wrap(a + d) && AgreesWith(r, a1, rest)
    ensures AgreesWith(r, a, AddEffect(d, rest))
  {
    if rest.Ok? {
      WrapAdd(a + d, rest.value);
    }
  }

  /** The loop's outcome and final count: it fails with the first failure
      among the blocks `height, ..., tip - 1`, and otherwise ends with the
      starting count moved by their summed effect, wrapped. */
  lemma {:induction false} SyncTotal(height: nat, tip: nat, chain: Chain, index: TxIndex, w: Walk)
    requires IsI32(w.addresses)
    ensures AgreesWith(SyncFrom(height, tip, chain, index, w), w.addresses, EffectsFrom(height, tip, chain, index))
    decreases tip - height
  {
    if height >= tip {
      WrapInRange(w.addresses);
    } else if height in chain && BlockEffect(chain[height].txs, index).Ok? {
      var d := BlockEffect(chain[height].txs, index).value;
      var w1 := Step(height, chain, index, w).value;
      assert Step(height, chain, index, w).Ok? && w1.addresses == Wrap(w.addresses + d) by {
        StepCount(height, chain, index, w, d);
      }
      assert SyncFrom(height, tip, chain, index, w) == SyncFrom(height + 1, tip, chain, index, w1) by {
        SyncFromUnfold(height, tip, chain, index, w);
      }
      SyncTotal(height + 1, tip, chain, index, w1);
      AgreesCons(SyncFrom(height + 1, tip, chain, index, w1), w.addresses, d, EffectsFrom(height + 1, tip, chain, index), w1.addresses);
    }
  }

  /** Below the tip, the loop is one step followed by the rest. */
  lemma SyncFromUnfold(height: nat, tip: nat, chain: Chain, index: TxIndex, w: Walk)
    requires height < tip && Step(height, chain, index, w).Ok?
    ensures SyncFrom(height, tip, chain, index, w)
         == SyncFrom(height + 1, tip, chain, index, Step(height, chain, index, w).value)
  {
  }

  /** The loop keeps what `out` held before it; when `height >= tip`
      nothing at all changes. */
  lemma {:induction false} SyncKeepsOut(height: nat, tip: nat, chain: Chain, index: TxIndex, w: Walk)
    ensures var w' := SyncFrom(height, tip, chain, index, w).1;
      |w'.out| >= |w.out| && w'.out[..|w.out|] == w.out
    ensures height >= tip ==> SyncFrom(height, tip, chain, index, w) == (Done, w)
    decreases tip - height
  {
    if height < tip && Step(height, chain, index, w).Ok? {
      var w1 := Step(height, chain, index, w).value;
      StepAppendsRow(height, chain, index, w);
      SyncFromUnfold(height, tip, chain, index, w);
      SyncKeepsOut(height + 1, tip, chain, index, w1);
      var w' := SyncFrom(height, tip, chain, index, w).1;
      assert w'.out[..|w.out|] == w'.out[..|w1.out|][..|w.out|];
    }
  }

  /** A loop that runs to the end appends exactly one row per height
      `height, ..., tip - 1`, in increasing order, each carrying the count
      held after its block. */
  lemma {:induction false} SyncRows(height: nat, tip: nat, chain: Chain, index: TxIndex, w: Walk, w': Walk)
    requires height < tip && SyncFrom(height, tip, chain, index, w) == (Done, w')
    ensures |w'.out| == |w.out| + (tip - height)
    ensures RowsFrom(w'.out[|w.out|..], height, chain, index, w.addresses)
    decreases tip - height
  {
    var w1 := SyncDoneFirst(height, tip, chain, index, w, w');
    if height + 1 < tip {
      SyncRows(height + 1, tip, chain, index, w1, w');
    } else {
      assert w'.out[|w1.out|..] == [];
    }
    RowsAppended(w.out, w1.out, w'.out, height, chain, index, w.addresses, w1.addresses);
  }

  /** `out1` is `out` plus the row for `height`, and `a1` is the count `a0`
      moved by that height's block. */
  ghost predicate StepRow(out: seq<string>, out1: seq<string>, height: nat, chain: Chain, index: TxIndex, a0: int, a1: int) {
    && |out1| == |out| + 1 && out1[..|out|] == out
    && height in chain && BlockEffect(chain[height].txs, index).Ok?
    && a1 == Wrap(a0 + BlockEffect(chain[height].txs, index).value)
    && RowWith(out1[|out|], height, chain[height], a1)
  }

  /** A loop that reached the tip from below it took a first step, over a
      block of some effect `d`, to a walk `w1` from which it went on to the
      same end. */
  lemma SyncDoneFirst(height: nat, tip: nat, chain: Chain, index: TxIndex, w: Walk, w': Walk)
    returns (w1: Walk)
    requires height < tip && SyncFrom(height, tip, chain, index, w) == (Done, w')
    ensures StepRow(w.out, w1.out, height, chain, index, w.addresses, w1.addresses)
    ensures SyncFrom(height + 1, tip, chain, index, w1) == (Done, w')
    ensures |w'.out| >= |w1.out| && w'.out[..|w1.out|] == w1.out
    ensures height + 1 >= tip ==> w' == w1
  {
    assert Step(height, chain, index, w).Ok?;
    w1 := Step(height, chain, index, w).value;
    assert height in chain && BlockEffect(chain[height].txs, index).Ok? by {
      StepEffect(height, chain, index, w);
    }
    var d := BlockEffect(chain[height].txs, index).value;
    StepAppendsRow(height, chain, index, w);
    StepCount(height, chain, index, w, d);
    SyncFromUnfold(height, tip, chain, index, w);
    SyncKeepsOut(height + 1, tip, chain, index, w1);
  }

  /** Rows from `height + 1` appended after the row for `height` make rows
      from `height`. */
  lemma RowsAppended(out: seq<string>, out1: seq<string>, out2: seq<string>, height: nat, chain: Chain, index: TxIndex, a0: int, a1: int)
    requires StepRow(out, out1, height, chain, index, a0, a1)
    requires |out2| >= |out1| && out2[..|out1|] == out1
    requires RowsFrom(out2[|out1|..], height + 1, chain, index, a1)
    ensures RowsFrom(out2[|out|..], height, chain, index, a0)
  {
    var d := BlockEffect(chain[height].txs, index).value;
    var rows := out2[|out|..];
    assert rows[0] == out1[|out|] by {
      assert out2[|out|] == out2[..|out1|][|out|];
    }
    assert rows[1..] == out2[|out1|..];
    RowsFromCons(rows, height, chain, index, a0, d);
  }

  /** The row for `height` followed by rows from `height + 1` are rows from
      `height`. */
  lemma RowsFromCons(rows: seq<string>, height: nat, chain: Chain, index: TxIndex, a0: int, d: int)
    requires rows != [] && height in chain && BlockEffect(chain[height].txs, index) == Ok(d)
    requires RowWith(rows[0], height, chain[height], Wrap(a0 + d))
    requires RowsFrom(rows[1..], height + 1, chain, index, Wrap(a0 + d))
    ensures RowsFrom(rows, height, chain, index, a0)
  {
    forall k: nat | k < |rows|
      ensures RowAt(rows, k, height, chain, index, a0)
    {
      if k > 0 {
        assert RowAt(rows[1..], k - 1, height + 1, chain, index, Wrap(a0 + d));
        RowAtShift(rows, k, height, chain, index, a0, d);
      } else {
        EffectsFromCons(height, height + 1, chain, index, d);
        assert EffectsFrom(height + 1, height + 1, chain, index) == Ok(0);
      }
    }
  }

  /** A row for `height + 1 + (k - 1)` counted from the count after block
      `height` is the row counted from the count before it. */
  lemma RowAtShift(rows: seq<string>, k: nat, height: nat, chain: Chain, index: TxIndex, a0: int, d: int)
    requires 0 < k < |rows| && height in chain && BlockEffect(chain[height].txs, index) == Ok(d)
    requires RowAt(rows[1..], k - 1, height + 1, chain, index, Wrap(a0 + d))
    ensures RowAt(rows, k, height, chain, index, a0)
  {
    var rest := EffectsFrom(height + 1, height + k + 1, chain, index);
    RowAtTail(rows, k, height, chain, index, Wrap(a0 + d));
    var total := EffectsFrom(height, height + k + 1, chain, index);
    assert total == AddEffect(d, rest) by {
      EffectsFromCons(height, height + k + 1, chain, index, d);
    }
    AddEffectCount(a0, d, rest, total);
  }

  /** Row `k - 1` of `rows[1..]` counted from `height + 1` is row `k` of
      `rows`. */
  lemma RowAtTail(rows: seq<string>, k: nat, height: nat, chain: Chain, index: TxIndex, a1: int)
    requires 0 < k < |rows| && RowAt(rows[1..], k - 1, height + 1, chain, index, a1)
    ensures var rest := EffectsFrom(height + 1, height + k + 1, chain, index);
      height + k in chain && rest.Ok?
      && RowWith(rows[k], height + k, chain[height + k], Wrap(a1 + rest.value))
  {
    assert height + 1 + (k - 1) == height + k;
    assert height + 1 + (k - 1) + 1 == height + k + 1;
    assert rows[k] == rows[1..][k - 1];
  }

  /** The count moved by a block of effect `d` and then by `rest` is the
      count moved by both at once. */
  lemma AddEffectCount(a0: int, d: int, rest: Result<int, WalkError>, total: Result<int, WalkError>)
    requires rest.Ok? && total == AddEffect(d, rest)
    ensures total.Ok? && Wrap(a0 + total.value) == Wrap(Wrap(a0 + d) + rest.value)
  {
    WrapAdd(a0 + d, rest.value);
  }

  /** The file is only written at multiples of 1000: a run over heights
      none of which is one leaves the file as it found it, so the rows it
      appended after the last multiple of 1000 are not saved. */
  lemma {:induction false} UnflushedRowsNotSaved(height: nat, tip: nat, chain: Chain, index: TxIndex, w: Walk)
    requires forall h :: height <= h < tip ==> !ShouldFlush(h)
    ensures SyncFrom(height, tip, chain, index, w).1.file == w.file
    decreases tip - height
  {
    if height < tip {
      match Step(height, chain, index, w)
      case Err(_) =>
      case Ok(w1) =>
        StepEffect(height, chain, index, w);
        UnflushedRowsNotSaved(height + 1, tip, chain, index, w1);
    }
  }

  /** A flush writes the whole buffer, and reading the file back gives the
      buffer again, provided no line already buffered holds a '\n' or ends
      in '\r' and the new row's coin text does not end in '\r'. Buffered
      lines may be empty: the new row, which never is, comes last. */
  lemma FlushedFileReadsBack(height: nat, chain: Chain, index: TxIndex, w: Walk, w1: Walk)
    requires ShouldFlush(height) && Step(height, chain, index, w) == Ok(w1)
    requires forall k :: 0 <= k < |w.out| ==> '\n' !in w.out[k] && !EndsInCr(w.out[k])
    requires height in chain && IsField(chain[height].date) && IsField(chain[height].coins)
    requires !EndsInCr(chain[height].coins)
    ensures w1.file == Join(w1.out, '\n')
    ensures Lines(w1.file) == w1.out && Start(w1.file).out == w1.out
  {
    var block := chain[height];
    StepEffect(height, chain, index, w);
    var row := FormatRow(height, block.date, w1.addresses, block.coins);
    assert w1.out == w.out + [row];
    RowFields(height, block.date, w1.addresses, block.coins);
    RowEnd(height, block.date, w1.addresses, block.coins);
    assert JoinableLines(w1.out) by {
      forall k | 0 <= k < |w1.out|
        ensures '\n' !in w1.out[k] && !EndsInCr(w1.out[k])
      {
        if k < |w.out| {
          assert w1.out[k] == w.out[k];
        }
      }
    }
    LinesJoin(w1.out);
  }

  /** What the walker writes at a flush is what it resumes from: after a
      flush at height `h >= 1` the file's last line yields resume height `h`
      and the address count held after block `h`. */
  lemma ResumeAfterFlush(height: U64, chain: Chain, index: TxIndex, w: Walk)
    requires height >= 1 && ShouldFlush(height)
    requires height in chain && IsField(chain[height].date) && IsField(chain[height].coins)
    requires Step(height, chain, index, w).Ok?
    ensures var w' := Step(height, chain, index, w).value;
      ResumeHeight(w'.file) == height && ResumeAddresses(w'.file) == w'.addresses
  {
    StepEffect(height, chain, index, w);
    var w' := Step(height, chain, index, w).value;
    var block := chain[height];
    ResumeFromRow(w.out, height, block.date, w'.addresses, block.coins);
  }

  /** The walk restarted from a file flushed at `h >= 1` resumes at `h`
      and holds the count the walk had after block `h`. */
  lemma RestartResumesAtFlush(height: U64, chain: Chain, index: TxIndex, w: Walk, w1: Walk, restart: Walk)
    requires height >= 1 && ShouldFlush(height)
    requires height in chain && IsField(chain[height].date) && IsField(chain[height].coins)
    requires Step(height, chain, index, w) == Ok(w1)
    requires restart == Start(w1.file)
    ensures ResumeHeight(w1.file) == height
    ensures restart.addresses == w1.addresses
  {
    ResumeAfterFlush(height, chain, index, w);
  }

  /** The buffer a restarted walk reads back from the file flushed at `h`
      (`Start(file).out`, the file's lines) ends with the row for `h`. */
  lemma RestartEndsWithFlushedRow(height: U64, chain: Chain, index: TxIndex, w: Walk, w1: Walk)
    requires ShouldFlush(height)
    requires height in chain && IsField(chain[height].date) && IsField(chain[height].coins)
    requires Step(height, chain, index, w) == Ok(w1)
    ensures var lines := Lines(w1.file);
      lines != [] && IsRowFor(lines[|lines| - 1], height, chain[height])
  {
    var block := chain[height];
    var row := FormatRow(height, block.date, w1.addresses, block.coins);
    assert w1.file == Join(w.out + [row], '\n') by {
      StepEffect(height, chain, index, w);
    }
    assert '\n' !in row && row != [] by {
      RowFields(height, block.date, w1.addresses, block.coins);
    }
    LastLineOfJoin(w.out + [row]);
    RowIsFor(height, block, w1.addresses);
  }

  /** A row written for a block with an `i32` count is a row for it. */
  lemma RowIsFor(height: nat, block: Block, a: int)
    requires IsI32(a)
    ensures IsRowFor(FormatRow(height, block.date, a, block.coins), height, block)
  {
  }

  /** A restart after a flush at `h` processes `h` again: the new run's
      first step appends a second row for `h` right after the first. */
  lemma RestartRepeatsFlushedRow(height: U64, chain: Chain, index: TxIndex, w: Walk, w1: Walk, restart: Walk)
    requires height >= 1 && ShouldFlush(height)
    requires height in chain && IsField(chain[height].date) && IsField(chain[height].coins)
    requires Step(height, chain, index, w) == Ok(w1)
    requires restart == Start(w1.file)
    ensures ResumeHeight(w1.file) == height
    ensures Step(height, chain, index, restart).Ok?
    ensures var out := Step(height, chain, index, restart).value.out;
      |out| >= 2 && IsRowFor(out[|out| - 2], height, chain[height]) && IsRowFor(out[|out| - 1], height, chain[height])
  {
    RestartResumesAtFlush(height, chain, index, w, w1, restart);
    RestartEndsWithFlushedRow(height, chain, index, w, w1);
    assert restart.out == Lines(w1.file);
    StepAgainAppends(height, chain, index, w, restart);
  }

  /** A block that stepped once steps again from any walk, appending one
      row for its height. */
  lemma StepAgainAppends(height: nat, chain: Chain, index: TxIndex, w: Walk, again: Walk)
    requires Step(height, chain, index, w).Ok?
    ensures Step(height, chain, index, again).Ok?
    ensures var out := Step(height, chain, index, again).value.out;
      |out| == |again.out| + 1 && out[..|again.out|] == again.out
      && height in chain && IsRowFor(out[|again.out|], height, chain[height])
  {
    StepEffect(height, chain, index, w);
    StepEffect(height, chain, index, again);
    StepAppendsRow(height, chain, index, again);
  }

  /** A step over a block whose effect is `d` succeeds and moves the
      counter by `d`, wrapped. */
  lemma StepCount(height: nat, chain: Chain, index: TxIndex, w: Walk, d: int)
    requires height in chain && BlockEffect(chain[height].txs, index) == Ok(d)
    ensures Step(height, chain, index, w).Ok?
    ensures Step(height, chain, index, w).value.addresses == Wrap(w.addresses + d)
  {
  }

  /** Stepping again over a block whose effect `d` the counter already
      holds adds `d` a second time. */
  lemma StepAgain(height: nat, chain: Chain, index: TxIndex, w: Walk, w1: Walk, again: Walk, d: int)
    requires height in chain && BlockEffect(chain[height].txs, index) == Ok(d)
    requires Step(height, chain, index, w) == Ok(w1)
    requires again.addresses == w1.addresses
    ensures Step(height, chain, index, again).Ok?
    ensures Step(height, chain, index, again).value.addresses == Wrap(w.addresses + d + d)
  {
    assert w1.addresses == Wrap(w.addresses + d) by {
      StepCount(height, chain, index, w, d);
    }
    StepCount(height, chain, index, again, d);
    WrapTwice(w.addresses, w1.addresses, Step(height, chain, index, again).value.addresses, d);
  }

  /** ... and it applies block `h`'s effect `d` to a count that already
      holds it, so that effect is counted twice. */
  lemma RestartCountsFlushedBlockTwice(height: U64, chain: Chain, index: TxIndex, w: Walk, w1: Walk, restart: Walk, d: int)
    requires height >= 1 && ShouldFlush(height)
    requires height in chain && IsField(chain[height].date) && IsField(chain[height].coins)
    requires BlockEffect(chain[height].txs, index) == Ok(d)
    requires Step(height, chain, index, w) == Ok(w1)
    requires restart == Start(w1.file)
    ensures Step(height, chain, index, restart).Ok?
    ensures Step(height, chain, index, restart).value.addresses == Wrap(w.addresses + d + d)
  {
    RestartResumesAtFlush(height, chain, index, w, w1, restart);
    StepAgain(height, chain, index, w, w1, restart, d);
  }

  /** A walk started from an empty file has no header line to keep: its
      first step leaves a buffer, and so the first flush a file, holding
      that height's data row alone. */
  lemma FreshFileHasNoHeader(height: nat, chain: Chain, index: TxIndex, w1: Walk)
    requires Step(height, chain, index, Start("")) == Ok(w1)
    requires height in chain && IsField(chain[height].date) && IsField(chain[height].coins)
    ensures Start("").out == [] && |w1.out| == 1 && w1.out[0] != HEADER
  {
    var block := chain[height];
    var row := FormatRow(height, block.date, w1.addresses, block.coins);
    assert Start("").out == [];
    assert w1.out == [row] by {
      StepEffect(height, chain, index, Start(""));
    }
    RowFields(height, block.date, w1.addresses, block.coins);
    HeaderFields();
    assert NatToString(height)[0] != "Height"[0];
  }

  /** A run with an active tip succeeds exactly when every block from the
      resume height up to the tip exists and passes its lookups, and
      otherwise fails with the first failure among them. */
  lemma WalkedOutcome(content: string, tips: seq<ChainTip>, chain: Chain, index: TxIndex, tip: nat)
    requires ActiveTipHeight(tips) == Some(tip)
    ensures var total := EffectsFrom(ResumeHeight(content), tip, chain, index);
      Walked(content, tips, chain, index).0 == if total.Ok? then Done else Failed(total.error)
  {
    SyncTotal(ResumeHeight(content), tip, chain, index, Start(content));
  }

  /** A run with no active tip fails and leaves the file alone; a run whose
      resume height is already at or past the tip writes nothing. */
  lemma WalkedTrivialCases(content: string, tips: seq<ChainTip>, chain: Chain, index: TxIndex)
    ensures ActiveTipHeight(tips).None? ==> Walked(content, tips, chain, index) == (Failed(NoActiveTip), content)
    ensures ActiveTipHeight(tips).Some? && ActiveTipHeight(tips).value <= ResumeHeight(content)
      ==> Walked(content, tips, chain, index) == (Done, content)
  {
  }
}
