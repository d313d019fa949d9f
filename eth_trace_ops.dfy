/** Second stage of `get_trace_operations`: one debit/credit pair per
    flattened trace entry, with the self-destruct ledger `destroyed_accs`
    threaded through the walk. */
module TraceOps {
  import opened Rosetta
  import opened EthTypes
  import opened TraceFlatten

  /** Pending destruct corrections per account (`HashMap<String, u64>`). */
  type Ledger = map<Address, nat>

  function StatusOf(e: FlatTrace): Status {
    if e.revert then Failure else Success
  }

  /** A zero-value plain call moves nothing and emits nothing. */
  predicate ShouldAdd(cfg: ChainConfig, e: FlatTrace) {
    !(e.value == 0 && e.kind == cfg.callType)
  }

  /** The entry leaves the loop body before the receiver operation: a
      self-destruct onto its own address, or an empty receiver. */
  predicate ExitsEarly(cfg: ChainConfig, e: FlatTrace) {
    (e.kind == cfg.selfDestructType && e.from == e.to) || e.to == ""
  }

  predicate IsCreate(cfg: ChainConfig, e: FlatTrace) {
    e.kind == cfg.createType || e.kind == cfg.create2Type
  }

  /** The entry moves value and succeeded, so it may touch the ledger. */
  predicate Moves(cfg: ChainConfig, e: FlatTrace) {
    ShouldAdd(cfg, e) && e.value != 0 && !e.revert
  }

  function ValueAmount(negative: bool, value: nat, cur: Currency): Option<Amount> {
    if value == 0 then None else Some(Amount(negative, value, cur))
  }

  function FromOp(cur: Currency, e: FlatTrace, index: int): Operation {
    Operation(index, None, e.kind, Some(StatusOf(e)), Some(e.from), ValueAmount(true, e.value, cur), None)
  }

  function ToOp(cur: Currency, e: FlatTrace, index: int): Operation {
    Operation(index, Some([index - 1]), e.kind, Some(StatusOf(e)), Some(e.to),
              ValueAmount(false, e.value, cur), None)
  }

  /** The operations one entry contributes, destruct operations aside. */
  function EntryOps(cfg: ChainConfig, cur: Currency, e: FlatTrace, next: int): (r: seq<Operation>)
    ensures |r| == (if !ShouldAdd(cfg, e) then 0 else if ExitsEarly(cfg, e) then 1 else 2)
    ensures IndexedFrom(r, next)
    ensures forall i :: 0 <= i < |r| ==>
      && r[i].kind == e.kind && r[i].metadata.None?
      && r[i].status.Some? && (r[i].status == Some(Failure) <==> e.revert)
      && (r[i].amount.None? <==> e.value == 0)
      && (r[i].amount.Some? ==> r[i].amount.value.currency == cur)
    ensures |r| >= 1 ==>
      && r[0].account == Some(e.from) && r[0].related.None?
      && SignedValue(r[0].amount) == -(e.value as int)
    ensures |r| == 2 ==>
      && r[1].account == Some(e.to) && r[1].related == Some([next])
      && SignedValue(r[1].amount) == e.value as int
  {
    if !ShouldAdd(cfg, e) then []
    else if ExitsEarly(cfg, e) then [FromOp(cur, e, next)]
    else [FromOp(cur, e, next), ToOp(cur, e, next + 1)]
  }

  /** `U256::as_u64` panics from 2^64 on. */
  const U64_LIMIT: nat := 0x1_0000_0000_0000_0000

  /** The ledger updates do not panic: at the sender the value fits in a
      `u64` and the unsigned subtraction does not underflow; at a receiver
      that is updated (no early exit, not resurrected) the value fits in a
      `u64`. */
  predicate LedgerDefined(cfg: ChainConfig, e: FlatTrace, ledger: Ledger) {
    && (Moves(cfg, e) && e.from in ledger ==> e.value < U64_LIMIT && e.value <= ledger[e.from])
    && (Moves(cfg, e) && !ExitsEarly(cfg, e) && !IsCreate(cfg, e) && e.to in ledger ==> e.value < U64_LIMIT)
  }

  /** The ledger after one entry. */
  function LedgerAfter(cfg: ChainConfig, e: FlatTrace, ledger: Ledger): (r: Ledger)
    requires LedgerDefined(cfg, e, ledger)
    ensures r.Keys <= ledger.Keys
  {
    var afterFrom :=
      if Moves(cfg, e) && e.from in ledger then ledger[e.from := ledger[e.from] - e.value] else ledger;
    if ExitsEarly(cfg, e) then afterFrom
    else
      var afterCreate := if IsCreate(cfg, e) then afterFrom - {e.to} else afterFrom;
      if Moves(cfg, e) && e.to in afterCreate then afterCreate[e.to := afterCreate[e.to] + e.value]
      else afterCreate
  }

  /** Only accounts already present are updated: a successful nonzero
      transfer lowers the sender's entry and raises the receiver's, and a
      create or create2 resurrects (removes) its target. */
  lemma LedgerUpdate(cfg: ChainConfig, e: FlatTrace, ledger: Ledger)
    requires LedgerDefined(cfg, e, ledger)
    ensures var r := LedgerAfter(cfg, e, ledger);
      && (forall k :: k in r && k != e.from && (k != e.to || ExitsEarly(cfg, e)) ==> r[k] == ledger[k])
      && (!ExitsEarly(cfg, e) && IsCreate(cfg, e) ==> e.to !in r)
      && (!Moves(cfg, e) ==> forall k :: k in r ==> r[k] == ledger[k])
      && (r.Keys == if !ExitsEarly(cfg, e) && IsCreate(cfg, e) then ledger.Keys - {e.to} else ledger.Keys)
      && (Moves(cfg, e) && e.from in r && (e.from != e.to || ExitsEarly(cfg, e))
          ==> r[e.from] == ledger[e.from] - e.value)
      && (Moves(cfg, e) && !ExitsEarly(cfg, e) && e.to in r && e.to != e.from
          ==> r[e.to] == ledger[e.to] + e.value)
      && (Moves(cfg, e) && !ExitsEarly(cfg, e) && e.from == e.to && e.from in r
          ==> r[e.from] == ledger[e.from])
  {
  }

  /** Starting from the empty ledger, the ledger stays empty. */
  lemma LedgerStaysEmpty(cfg: ChainConfig, e: FlatTrace)
    ensures LedgerAfter(cfg, e, map[]) == map[]
  {
    var r := LedgerAfter(cfg, e, map[]);
    assert r.Keys == {};
  }

  function NonZeroKeys(ledger: Ledger): set<Address> {
    set k | k in ledger && ledger[k] != 0
  }

  function DestructOp(cfg: ChainConfig, cur: Currency, account: Address, pending: nat, index: int): Operation {
    Operation(index, None, cfg.destructType, Some(Success), Some(account),
              Some(Amount(true, pending, cur)), None)
  }

  function AccountsOf(d: seq<Operation>): set<Address> {
    set i | 0 <= i < |d| && d[i].account.Some? :: d[i].account.value
  }

  /** The i-th drained operation is the destruct operation of a ledger
      entry, at index `next + i`. */
  predicate DestructAt(cfg: ChainConfig, cur: Currency, d: seq<Operation>, i: int, ledger: Ledger, next: int)
    requires 0 <= i < |d|
  {
    d[i].account.Some? && d[i].account.value in ledger
    && d[i] == DestructOp(cfg, cur, d[i].account.value, ledger[d[i].account.value], next + i)
  }

  /** `d` holds one destruct operation for each account of `done`, on
      pairwise distinct accounts, with consecutive indices from `next`. */
  predicate DrainedSoFar(cfg: ChainConfig, cur: Currency, d: seq<Operation>, ledger: Ledger,
                         next: int, done: set<Address>)
  {
    && |d| == |done|
    && AccountsOf(d) == done
    && (forall i, j :: 0 <= i < j < |d| ==> d[i].account != d[j].account)
    && (forall i :: 0 <= i < |d| ==> DestructAt(cfg, cur, d, i, ledger, next))
  }

  /** `d` drains `ledger`: one destruct operation per nonzero entry, in some
      order, with consecutive indices from `next`. */
  predicate IsDrain(cfg: ChainConfig, cur: Currency, d: seq<Operation>, ledger: Ledger, next: int) {
    DrainedSoFar(cfg, cur, d, ledger, next, NonZeroKeys(ledger))
  }

  lemma DrainGrows(cfg: ChainConfig, cur: Currency, d: seq<Operation>, ledger: Ledger, next: int,
                   done: set<Address>, k: Address)
    requires DrainedSoFar(cfg, cur, d, ledger, next, done)
    requires k in ledger && k !in done
    ensures DrainedSoFar(cfg, cur, d + [DestructOp(cfg, cur, k, ledger[k], next + |d|)],
                         ledger, next, done + {k})
  {
    var op := DestructOp(cfg, cur, k, ledger[k], next + |d|);
    var d' := d + [op];
    assert AccountsOf(d') == AccountsOf(d) + {k} by {
      forall a | a in AccountsOf(d')
        ensures a in AccountsOf(d) + {k}
      {
        var i :| 0 <= i < |d'| && d'[i].account.Some? && d'[i].account.value == a;
        if i < |d| { assert d'[i] == d[i]; }
      }
      forall a | a in AccountsOf(d)
        ensures a in AccountsOf(d')
      {
        var i :| 0 <= i < |d| && d[i].account.Some? && d[i].account.value == a;
        assert d'[i] == d[i];
      }
      assert d'[|d|] == op;
    }
    forall i, j | 0 <= i < j < |d'|
      ensures d'[i].account != d'[j].account
    {
      if j == |d| {
        assert DestructAt(cfg, cur, d, i, ledger, next);
        assert d[i].account.value in AccountsOf(d);
      }
    }
    forall i | 0 <= i < |d'|
      ensures DestructAt(cfg, cur, d', i, ledger, next)
    {
      if i < |d| { assert DestructAt(cfg, cur, d, i, ledger, next); }
    }
  }

  lemma EmptyLedgerDrainsNothing(cfg: ChainConfig, cur: Currency, d: seq<Operation>, next: int)
    requires IsDrain(cfg, cur, d, map[], next)
    ensures d == []
  {
    assert NonZeroKeys(map[]) == {};
  }

  /** The index after the last operation (`operations[len - 1].index + 1`). */
  function NextIndex(ops: seq<Operation>): int {
    if ops == [] then 0 else ops[|ops| - 1].index + 1
  }

  /** A destruct operation's index follows the last operation emitted so
      far. */
  lemma DrainIndex(cfg: ChainConfig, cur: Currency, ops: seq<Operation>, drained: seq<Operation>,
                   ledger: Ledger, done: set<Address>)
    requires |ops + drained| > 0
    requires DrainedSoFar(cfg, cur, drained, ledger, NextIndex(ops), done)
    ensures (ops + drained)[|ops + drained| - 1].index + 1 == NextIndex(ops) + |drained|
  {
    var current := ops + drained;
    if drained != [] {
      assert DestructAt(cfg, cur, drained, |drained| - 1, ledger, NextIndex(ops));
      assert current[|current| - 1] == drained[|drained| - 1];
    } else {
      assert current == ops;
    }
  }

  /** Visiting a key whose entry is zero drains nothing for it. */
  lemma DrainSkip(cfg: ChainConfig, cur: Currency, drained: seq<Operation>, ledger: Ledger,
                  next: int, pending: set<Address>, k: Address)
    requires k in pending && k in ledger && ledger[k] == 0
    requires DrainedSoFar(cfg, cur, drained, ledger, next, NonZeroKeys(ledger) - pending)
    ensures DrainedSoFar(cfg, cur, drained, ledger, next, NonZeroKeys(ledger) - (pending - {k}))
  {
    assert NonZeroKeys(ledger) - (pending - {k}) == NonZeroKeys(ledger) - pending;
  }

  /** Visiting a key whose entry is nonzero appends its destruct operation,
      whose index follows the last operation emitted so far. */
  lemma DrainAppend(cfg: ChainConfig, cur: Currency, ops: seq<Operation>, drained: seq<Operation>,
                    ledger: Ledger, pending: set<Address>, k: Address)
    requires |ops| > 0 || NonZeroKeys(ledger) == {}
    requires k in pending && k in ledger && ledger[k] != 0
    requires DrainedSoFar(cfg, cur, drained, ledger, NextIndex(ops), NonZeroKeys(ledger) - pending)
    ensures |ops + drained| > 0
    ensures (ops + drained)[|ops + drained| - 1].index + 1 == NextIndex(ops) + |drained|
    ensures DrainedSoFar(cfg, cur, drained + [DestructOp(cfg, cur, k, ledger[k], NextIndex(ops) + |drained|)],
                         ledger, NextIndex(ops), NonZeroKeys(ledger) - (pending - {k}))
  {
    var done := NonZeroKeys(ledger) - pending;
    assert k in NonZeroKeys(ledger);
    assert |ops + drained| > 0;
    DrainIndex(cfg, cur, ops, drained, ledger, done);
    DrainGrows(cfg, cur, drained, ledger, NextIndex(ops), done, k);
    assert NonZeroKeys(ledger) - (pending - {k}) == done + {k};
  }

  /** Once every key has been visited, the drained operations follow `ops`
      and drain the whole ledger. */
  lemma DrainFinished(cfg: ChainConfig, cur: Currency, ops: seq<Operation>, drained: seq<Operation>, ledger: Ledger)
    requires DrainedSoFar(cfg, cur, drained, ledger, NextIndex(ops), NonZeroKeys(ledger) - {})
    ensures |ops + drained| >= |ops| && (ops + drained)[..|ops|] == ops
    ensures IsDrain(cfg, cur, (ops + drained)[|ops|..], ledger, NextIndex(ops))
  {
    assert NonZeroKeys(ledger) - {} == NonZeroKeys(ledger);
    assert (ops + drained)[|ops|..] == drained;
  }

  /** The drain loop over `destroyed_accs`: the map is visited in no
      particular order and zero entries are skipped. */
  method Drain(cfg: ChainConfig, cur: Currency, ops: seq<Operation>, ledger: Ledger)
    returns (out: seq<Operation>)
    requires |ops| > 0 || NonZeroKeys(ledger) == {}
    ensures |out| >= |ops| && out[..|ops|] == ops
    ensures IsDrain(cfg, cur, out[|ops|..], ledger, NextIndex(ops))
  {
    var drained := [];
    var pending := ledger.Keys;
    assert NonZeroKeys(ledger) - pending == {};
    while pending != {}
      invariant pending <= ledger.Keys
      invariant DrainedSoFar(cfg, cur, drained, ledger, NextIndex(ops), NonZeroKeys(ledger) - pending)
      decreases pending
    {
      var k :| k in pending;
      if ledger[k] == 0 {
        DrainSkip(cfg, cur, drained, ledger, NextIndex(ops), pending, k);
        pending := pending - {k};
        continue;
      }
      DrainAppend(cfg, cur, ops, drained, ledger, pending, k);
      pending := pending - {k};
      var current := ops + drained;
      var index := current[|current| - 1].index + 1;
      drained := drained + [DestructOp(cfg, cur, k, ledger[k], index)];
    }
    DrainFinished(cfg, cur, ops, drained, ledger);
    out := ops + drained;
  }

  /** One iteration of the entry loop up to the drain: the sender
      operation, the early exits, resurrection and the receiver operation, with the ledger
      updates that go with them. `exited` tells whether the iteration ends
      here, before the drain. */
  method EmitEntry(cfg: ChainConfig, cur: Currency, opLen: int, e: FlatTrace,
                   ops: seq<Operation>, ledger: Ledger)
    returns (out: seq<Operation>, ledger': Ledger, exited: bool)
    requires IndexedFrom(ops, opLen)
    requires LedgerDefined(cfg, e, ledger)
    ensures out == ops + EntryOps(cfg, cur, e, opLen + |ops|)
    ensures ledger' == LedgerAfter(cfg, e, ledger)
    ensures exited == ExitsEarly(cfg, e)
  {
    var status := StatusOf(e);
    var zeroValue := e.value == 0;
    var shouldAdd := !(zeroValue && e.kind == cfg.callType);
    out, ledger', exited := ops, ledger, true;
    if shouldAdd {
      var fromOp := Operation(opLen + |out|, None, e.kind, Some(status), Some(e.from),
                              Some(Amount(true, e.value, cur)), None);
      if zeroValue {
        fromOp := fromOp.(amount := None);
      } else if e.from in ledger' {
        if status == Success {
          ledger' := ledger'[e.from := ledger'[e.from] - e.value];
        }
      }
      out := out + [fromOp];
    }
    if e.kind == cfg.selfDestructType {
      if e.from == e.to {
        return;
      }
    }
    if e.to == "" {
      return;
    }
    if e.kind == cfg.createType || e.kind == cfg.create2Type {
      ledger' := ledger' - {e.to};
    }
    if shouldAdd {
      var lastIndex := out[|out| - 1].index;
      var toOp := Operation(lastIndex + 1, Some([lastIndex]), e.kind, Some(status), Some(e.to),
                            Some(Amount(false, e.value, cur)), None);
      if zeroValue {
        toOp := toOp.(amount := None);
      } else if e.to in ledger' {
        if status == Success {
          ledger' := ledger'[e.to := ledger'[e.to] + e.value];
        }
      }
      out := out + [toOp];
    }
    exited := false;
  }

  /** `out` is `ops` followed by the entry's own operations and, unless the
      iteration exited early, by a drain of the updated ledger `ledger'`. */
  predicate EntryApplied(cfg: ChainConfig, cur: Currency, opLen: int, e: FlatTrace,
                         ops: seq<Operation>, ledger': Ledger, out: seq<Operation>)
  {
    var entry := EntryOps(cfg, cur, e, opLen + |ops|);
    && |out| >= |ops| + |entry|
    && out[..|ops| + |entry|] == ops + entry
    && (ExitsEarly(cfg, e) ==> out == ops + entry)
    && (!ExitsEarly(cfg, e) ==> IsDrain(cfg, cur, out[|ops| + |entry|..], ledger', opLen + |ops| + |entry|))
  }

  /** One iteration of the loop over flattened entries: the entry's own
      operations, then, unless the iteration exited early, the drain. */
  method ApplyEntry(cfg: ChainConfig, cur: Currency, opLen: int, e: FlatTrace,
                    ops: seq<Operation>, ledger: Ledger)
    returns (out: seq<Operation>, ledger': Ledger)
    requires IndexedFrom(ops, opLen)
    requires LedgerDefined(cfg, e, ledger)
    requires |ops| > 0 || ShouldAdd(cfg, e) || NonZeroKeys(ledger) == {}
    ensures ledger' == LedgerAfter(cfg, e, ledger)
    ensures EntryApplied(cfg, cur, opLen, e, ops, ledger', out)
    ensures ledger == map[] ==> ledger' == map[] && out == ops + EntryOps(cfg, cur, e, opLen + |ops|)
  {
    var exited;
    out, ledger', exited := EmitEntry(cfg, cur, opLen, e, ops, ledger);
    ghost var entry := EntryOps(cfg, cur, e, opLen + |ops|);
    assert out[..|ops| + |entry|] == out;
    if exited {
      return;
    }
    IndexedFromConcat(ops, entry, opLen);
    ghost var before := out;
    if before == [] {
      assert !ShouldAdd(cfg, e) && NonZeroKeys(ledger) == {};
      LedgerUpdate(cfg, e, ledger);
      assert forall k :: k in ledger' ==> ledger'[k] == ledger[k];
      assert NonZeroKeys(ledger') == {};
    } else {
      assert before[|before| - 1].index == opLen + |before| - 1;
    }
    out := Drain(cfg, cur, out, ledger');
    if before == [] {
      assert out[|before|..] == [] && AccountsOf([]) == {};
    }
    if ledger == map[] {
      LedgerStaysEmpty(cfg, e);
      EmptyLedgerDrainsNothing(cfg, cur, out[|before|..], NextIndex(before));
      assert out == out[..|before|] + out[|before|..];
    }
  }

  /** The operations the walk emits over the flattened entries, starting at
      index `opLen`, when the ledger starts (and so stays) empty. */
  function EmittedOps(cfg: ChainConfig, cur: Currency, flat: seq<FlatTrace>, opLen: int): (r: seq<Operation>)
    ensures IndexedFrom(r, opLen)
    ensures |r| <= 2 * |flat|
    decreases |flat|
  {
    if flat == [] then []
    else
      var prev := EmittedOps(cfg, cur, flat[..|flat| - 1], opLen);
      var entry := EntryOps(cfg, cur, flat[|flat| - 1], opLen + |prev|);
      IndexedFromConcat(prev, entry, opLen);
      prev + entry
  }

  /** One step of the walk: the operations of entry `i` follow those of
      the entries before it. */
  lemma EmittedOpsNext(cfg: ChainConfig, cur: Currency, flat: seq<FlatTrace>, i: int, opLen: int)
    requires 0 <= i < |flat|
    ensures EmittedOps(cfg, cur, flat[..i + 1], opLen)
            == EmittedOps(cfg, cur, flat[..i], opLen)
               + EntryOps(cfg, cur, flat[i], opLen + |EmittedOps(cfg, cur, flat[..i], opLen)|)
  {
    assert flat[..i + 1][..i] == flat[..i];
  }

  /** The walk over the flattened entries, with the ledger starting empty. */
  method WalkEntries(cfg: ChainConfig, cur: Currency, traces: seq<FlatTrace>, opLen: int)
    returns (ops: seq<Operation>)
    ensures ops == EmittedOps(cfg, cur, traces, opLen)
  {
    ops := [];
    var destroyedAccs: Ledger := map[];
    for i := 0 to |traces|
      invariant destroyedAccs == map[]
      invariant ops == EmittedOps(cfg, cur, traces[..i], opLen)
    {
      assert NonZeroKeys(destroyedAccs) == {};
      ghost var prev := ops;
      ops, destroyedAccs := ApplyEntry(cfg, cur, opLen, traces[i], ops, destroyedAccs);
      EmittedOpsNext(cfg, cur, traces, i, opLen);
    }
    assert traces[..|traces|] == traces;
  }

  /** `get_trace_operations`: flatten the tree, then walk the entries with
      an initially empty ledger. */
  method TraceOperations(cfg: ChainConfig, cur: Currency, root: Trace, opLen: int)
    returns (ops: seq<Operation>)
    ensures ops == EmittedOps(cfg, cur, FlattenSpec(root), opLen)
    ensures IndexedFrom(ops, opLen)
  {
    var traces := Flatten(root);
    ops := WalkEntries(cfg, cur, traces, opLen);
  }

  /** If `ops[j]` has related operations, it is a receiver operation that
      points back at the operation just before it, which is its sender
      operation: same type and status, no related operations, the opposite
      amount. */
  predicate PairedWithSender(ops: seq<Operation>, j: int)
    requires 0 <= j < |ops|
  {
    ops[j].related.Some? ==>
      && 0 < j
      && ops[j].related == Some([ops[j].index - 1])
      && ops[j - 1].related.None?
      && ops[j - 1].kind == ops[j].kind && ops[j - 1].status == ops[j].status
      && SignedValue(ops[j - 1].amount) == -SignedValue(ops[j].amount)
  }

  /** Every emitted receiver operation follows its sender operation. */
  lemma {:induction false} ReceiverFollowsSender(cfg: ChainConfig, cur: Currency, flat: seq<FlatTrace>, opLen: int)
    ensures forall j :: 0 <= j < |EmittedOps(cfg, cur, flat, opLen)| ==>
      PairedWithSender(EmittedOps(cfg, cur, flat, opLen), j)
    decreases |flat|
  {
    if flat != [] {
      var init := flat[..|flat| - 1];
      var prev := EmittedOps(cfg, cur, init, opLen);
      var entry := EntryOps(cfg, cur, flat[|flat| - 1], opLen + |prev|);
      var ops := EmittedOps(cfg, cur, flat, opLen);
      assert ops == prev + entry;
      ReceiverFollowsSender(cfg, cur, init, opLen);
      forall j | 0 <= j < |ops|
        ensures PairedWithSender(ops, j)
      {
        if j < |prev| {
          assert PairedWithSender(prev, j);
          assert ops[j] == prev[j];
          if prev[j].related.Some? {
            assert ops[j - 1] == prev[j - 1];
          }
        } else {
          assert ops[j] == entry[j - |prev|];
          if ops[j].related.Some? {
            assert j - |prev| == 1 && ops[j - 1] == entry[0];
          }
        }
      }
    }
  }

  /** `op` has the type of some entry of `flat`, and status failure exactly
      when that entry reverted. */
  ghost predicate FromSomeEntry(op: Operation, flat: seq<FlatTrace>) {
    exists k :: 0 <= k < |flat| && op.kind == flat[k].kind && (op.status == Some(Failure) <==> flat[k].revert)
  }

  /** Every emitted operation belongs to some entry: it has that entry's type,
      and status failure exactly when that entry reverted. So no operation of
      a type that no entry has (the destruct type, say) is ever emitted. */
  lemma {:induction false} OpsComeFromEntries(cfg: ChainConfig, cur: Currency, flat: seq<FlatTrace>, opLen: int)
    ensures forall j :: 0 <= j < |EmittedOps(cfg, cur, flat, opLen)| ==>
      FromSomeEntry(EmittedOps(cfg, cur, flat, opLen)[j], flat)
    decreases |flat|
  {
    if flat != [] {
      var init := flat[..|flat| - 1];
      var prev := EmittedOps(cfg, cur, init, opLen);
      var last := flat[|flat| - 1];
      var entry := EntryOps(cfg, cur, last, opLen + |prev|);
      var ops := EmittedOps(cfg, cur, flat, opLen);
      assert ops == prev + entry;
      OpsComeFromEntries(cfg, cur, init, opLen);
      forall j | 0 <= j < |ops|
        ensures FromSomeEntry(ops[j], flat)
      {
        if j < |prev| {
          assert ops[j] == prev[j];
          assert FromSomeEntry(prev[j], init);
          var k :| 0 <= k < |init| && prev[j].kind == init[k].kind
            && (prev[j].status == Some(Failure) <==> init[k].revert);
          assert flat[k] == init[k];
        } else {
          assert ops[j] == entry[j - |prev|];
          assert flat[|flat| - 1] == last;
        }
      }
    }
  }

  lemma NoDestructOps(cfg: ChainConfig, cur: Currency, flat: seq<FlatTrace>, opLen: int)
    requires forall k :: 0 <= k < |flat| ==> flat[k].kind != cfg.destructType
    ensures forall op :: op in EmittedOps(cfg, cur, flat, opLen) ==> op.kind != cfg.destructType
  {
    var ops := EmittedOps(cfg, cur, flat, opLen);
    OpsComeFromEntries(cfg, cur, flat, opLen);
    forall op | op in ops
      ensures op.kind != cfg.destructType
    {
      var j :| 0 <= j < |ops| && ops[j] == op;
      assert FromSomeEntry(ops[j], flat);
    }
  }
}
