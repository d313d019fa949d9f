/** Substrate extrinsic events as Rosetta operations: each event gives a
    sender operation and, when it names a receiver and an amount, a
    receiver operation, both numbered with the event's position. */
module SubstrateEvents {
  import opened Rosetta
  import opened SubstrateValues

  /** A decoded event: its pallet and variant names, its field values
      (`None` when they fail to decode) and its field metadata. */
  datatype Event = Event(pallet: string, variant: string, fields: Option<Composite>, meta: seq<FieldMeta>)

  /** `TransactionOperationStatus`. */
  datatype OperationData = OperationData(kind: string, from: Option<string>, amount: Option<Uint128>, to: Option<string>)

  const SENDER_NAMES: set<string> := {"from", "who", "account"}
  const AMOUNT_NAMES: set<string> := {"amount", "actual_fee"}
  const RECEIVER_NAMES: set<string> := {"to"}

  /** Field `i` is the first one whose name is in `names`. */
  predicate FirstWith(fields: seq<NamedField>, names: set<string>, i: int) {
    0 <= i < |fields| && fields[i].name in names && forall j :: 0 <= j < i ==> fields[j].name !in names
  }

  /** The position of the first field named in `names` (`filter` followed
      by `next`). */
  function FirstNamed(fields: seq<NamedField>, names: set<string>): (r: Option<nat>)
    ensures r.None? <==> forall i :: 0 <= i < |fields| ==> fields[i].name !in names
    ensures r.Some? ==> FirstWith(fields, names, r.value)
  {
    if fields == [] then None
    else if fields[0].name in names then Some(0)
    else
      match FirstNamed(fields[1..], names)
      case None => None
      case Some(i) => Some(i + 1)
  }

  function EventKind(pallet: string, variant: string): string {
    pallet + "." + variant
  }

  /** The address in the first field named in `names`, if any. Later
      fields of those names are never looked at. */
  function ReadAddress(ss58: seq<byte> -> string, fields: seq<NamedField>, names: set<string>)
    : Result<Option<string>, SubstrateError>
  {
    match FirstNamed(fields, names)
    case None => Ok(None)
    case Some(i) =>
      match AddressOf(ss58, fields[i].value)
      case Ok(a) => Ok(Some(a))
      case Err(e) => Err(e)
  }

  /** The amount in the first field named `amount` or `actual_fee`, if any;
      it must be a `U128`. */
  function ReadAmount(fields: seq<NamedField>): Result<Option<Uint128>, SubstrateError> {
    match FirstNamed(fields, AMOUNT_NAMES)
    case None => Ok(None)
    case Some(i) =>
      match fields[i].value
      case PrimitiveValue(U128(n)) => Ok(Some(n))
      case _ => Err(InvalidOperation)
  }

  /** `get_operation_data`: the event type, and the sender, amount and
      receiver read from the named fields, in that order. */
  function OperationDataOf(ss58: seq<byte> -> string, ev: Event): (r: Result<OperationData, SubstrateError>)
    ensures r.Ok? ==> r.value.kind == EventKind(ev.pallet, ev.variant)
    ensures ev.fields.None? ==> r == Err(FieldsUndecodable)
    ensures ev.fields.Some? && ev.fields.value.Unnamed? ==> r == Err(InvalidOperation)
    ensures ev.fields.Some? && ev.fields.value.Named? && r.Err? ==> r.error == InvalidOperation
  {
    var kind := EventKind(ev.pallet, ev.variant);
    match ev.fields
    case None => Err(FieldsUndecodable)
    case Some(Unnamed(_)) => Err(InvalidOperation)
    case Some(Named(fs)) =>
      match ReadAddress(ss58, fs, SENDER_NAMES)
      case Err(e) => Err(e)
      case Ok(from) =>
        match ReadAmount(fs)
        case Err(e) => Err(e)
        case Ok(amount) =>
          match ReadAddress(ss58, fs, RECEIVER_NAMES)
          case Err(e) => Err(e)
          case Ok(to) => Ok(OperationData(kind, from, amount, to))
  }

  /** The first field of a name group decides: the event is read iff the
      first sender and receiver fields hold addresses and the first amount
      field holds a `U128`; a group without a field leaves its part absent;
      later fields of the same group are never looked at. */
  lemma FieldMatching(ss58: seq<byte> -> string, ev: Event)
    requires ev.fields.Some? && ev.fields.value.Named?
    ensures var fs := ev.fields.value.fields;
      var r := OperationDataOf(ss58, ev);
      && (r.Ok? <==>
            && (forall i :: FirstWith(fs, SENDER_NAMES, i) ==> AddressShaped(fs[i].value))
            && (forall i :: FirstWith(fs, AMOUNT_NAMES, i) ==> IsU128(fs[i].value))
            && (forall i :: FirstWith(fs, RECEIVER_NAMES, i) ==> AddressShaped(fs[i].value)))
      && (r.Ok? ==>
            && (r.value.from.None? <==> forall i :: 0 <= i < |fs| ==> fs[i].name !in SENDER_NAMES)
            && (r.value.from.Some? ==> exists i :: (FirstWith(fs, SENDER_NAMES, i)
                  && r.value.from.value == ss58(AddressBytes(fs[i].value))))
            && (r.value.amount.None? <==> forall i :: 0 <= i < |fs| ==> fs[i].name !in AMOUNT_NAMES)
            && (r.value.amount.Some? ==> exists i :: (FirstWith(fs, AMOUNT_NAMES, i)
                  && fs[i].value == PrimitiveValue(U128(r.value.amount.value))))
            && (r.value.to.None? <==> forall i :: 0 <= i < |fs| ==> fs[i].name !in RECEIVER_NAMES)
            && (r.value.to.Some? ==> exists i :: (FirstWith(fs, RECEIVER_NAMES, i)
                  && r.value.to.value == ss58(AddressBytes(fs[i].value)))))
  {
    var fs := ev.fields.value.fields;
    var s, a, t := FirstNamed(fs, SENDER_NAMES), FirstNamed(fs, AMOUNT_NAMES), FirstNamed(fs, RECEIVER_NAMES);
    if s.Some? { FirstWithIsUnique(fs, SENDER_NAMES, s.value); }
    if a.Some? { FirstWithIsUnique(fs, AMOUNT_NAMES, a.value); }
    if t.Some? { FirstWithIsUnique(fs, RECEIVER_NAMES, t.value); }
  }

  /** The first field of the given names is the only one of them that
      counts. */
  lemma FirstWithIsUnique(fields: seq<NamedField>, names: set<string>, i: int)
    requires FirstWith(fields, names, i)
    ensures forall j :: FirstWith(fields, names, j) ==> j == i
  {
  }

  /** The event type determines pallet and variant, for pallet names
      without a dot. */
  lemma EventKindSplits(p1: string, v1: string, p2: string, v2: string)
    requires '.' !in p1 && '.' !in p2
    ensures EventKind(p1, v1) == EventKind(p2, v2) <==> p1 == p2 && v1 == v2
  {
    var k1, k2 := EventKind(p1, v1), EventKind(p2, v2);
    assert forall i :: 0 <= i < |p1| ==> k1[i] == p1[i] && p1[i] in p1;
    assert forall i :: 0 <= i < |p2| ==> k2[i] == p2[i] && p2[i] in p2;
    assert k1[|p1|] == '.' && k2[|p2|] == '.';
    if k1 == k2 {
      assert |p1| == |p2|;
      assert p1 == k1[..|p1|] && p2 == k2[..|p2|];
      assert v1 == k1[|p1| + 1..] && v2 == k2[|p2| + 1..];
    }
  }

  /** The one or two operations of the event at position `index`. */
  function EventOperations(cur: Currency, index: nat, d: OperationData, meta: seq<FieldMeta>)
    : (r: seq<Operation>)
    ensures |r| == (if d.to.Some? && d.amount.Some? then 2 else 1)
    ensures forall i :: 0 <= i < |r| ==>
      && r[i].index == index && r[i].related.None? && r[i].kind == d.kind
      && r[i].status.None? && r[i].metadata == Some(EventFields(meta))
    ensures r[0].account == d.from
    ensures d.amount.None? ==> r[0].amount.None?
    ensures d.amount.Some? ==> r[0].amount == Some(Amount(true, d.amount.value, cur))
    ensures |r| == 2 ==> r[1].account == d.to && r[1].amount == Some(Amount(false, d.amount.value, cur))
  {
    var metadata := Some(EventFields(meta));
    var negAmount := match d.amount
      case None => None
      case Some(a) => Some(Amount(true, a, cur));
    var sender := Operation(index, None, d.kind, None, d.from, negAmount, metadata);
    match (d.to, d.amount)
    case (Some(to), Some(amount)) =>
      [sender, Operation(index, None, d.kind, None, Some(to), Some(Amount(false, amount, cur)), metadata)]
    case _ => [sender]
  }

  /** An event that fails to decode is an error; otherwise its fields are
      read. */
  function ParseEvent(ss58: seq<byte> -> string, e: Option<Event>): Result<OperationData, SubstrateError> {
    match e
    case None => Err(EventUndecodable)
    case Some(ev) => OperationDataOf(ss58, ev)
  }

  /** Event `k` is the first one that does not parse. */
  predicate FirstFailing(ss58: seq<byte> -> string, events: seq<Option<Event>>, k: int) {
    0 <= k < |events| && ParseEvent(ss58, events[k]).Err?
    && forall j :: 0 <= j < k ==> ParseEvent(ss58, events[j]).Ok?
  }

  /** The operations of a list of events, or the error of the first event
      that does not parse. */
  function EventsOperations(ss58: seq<byte> -> string, cur: Currency, events: seq<Option<Event>>)
    : (r: Result<seq<Operation>, SubstrateError>)
    ensures r.Ok? <==> forall k :: 0 <= k < |events| ==> ParseEvent(ss58, events[k]).Ok?
    ensures r.Err? ==> exists k :: FirstFailing(ss58, events, k) && r.error == ParseEvent(ss58, events[k]).error
    ensures r.Ok? ==> |events| <= |r.value| <= 2 * |events|
    decreases |events|
  {
    if events == [] then Ok([])
    else
      var init := events[..|events| - 1];
      match EventsOperations(ss58, cur, init)
      case Err(e) =>
        assert forall k :: 0 <= k < |init| ==> events[k] == init[k];
        Err(e)
      case Ok(prev) =>
        assert forall k :: 0 <= k < |init| ==> events[k] == init[k];
        match ParseEvent(ss58, events[|events| - 1])
        case Err(e) =>
          assert FirstFailing(ss58, events, |events| - 1);
          Err(e)
        case Ok(d) =>
          var meta := events[|events| - 1].value.meta;
          Ok(prev + EventOperations(cur, |events| - 1, d, meta))
  }

  lemma {:induction false} ErrorPersists(ss58: seq<byte> -> string, cur: Currency, events: seq<Option<Event>>, i: nat)
    requires i <= |events|
    requires EventsOperations(ss58, cur, events[..i]).Err?
    ensures EventsOperations(ss58, cur, events) == EventsOperations(ss58, cur, events[..i])
    decreases |events|
  {
    if i < |events| {
      var init := events[..|events| - 1];
      assert init[..i] == events[..i];
      ErrorPersists(ss58, cur, init, i);
    } else {
      assert events[..i] == events;
    }
  }

  /** Extending the event list by one event extends the operations by
      that event's, or fails with its error. */
  lemma EventsOperationsStep(ss58: seq<byte> -> string, cur: Currency, events: seq<Option<Event>>,
                             i: nat, prev: seq<Operation>)
    requires i < |events| && EventsOperations(ss58, cur, events[..i]) == Ok(prev)
    ensures ParseEvent(ss58, events[i]).Err? ==>
      EventsOperations(ss58, cur, events[..i + 1]) == Err(ParseEvent(ss58, events[i]).error)
    ensures ParseEvent(ss58, events[i]).Ok? ==>
      EventsOperations(ss58, cur, events[..i + 1])
      == Ok(prev + EventOperations(cur, i, ParseEvent(ss58, events[i]).value, events[i].value.meta))
  {
    assert events[..i + 1][..i] == events[..i];
  }

  /** The per-event loop of `get_transaction`; `hash` is the extrinsic's
      hash. */
  method GetTransaction(ss58: seq<byte> -> string, cur: Currency, hash: string, events: seq<Option<Event>>)
    returns (r: Result<Transaction, SubstrateError>)
    ensures r.Ok? <==> EventsOperations(ss58, cur, events).Ok?
    ensures r.Ok? ==> r.value == Transaction(hash, EventsOperations(ss58, cur, events).value)
    ensures r.Err? ==> r.error == EventsOperations(ss58, cur, events).error
  {
    var operations: seq<Operation> := [];
    for eventIndex := 0 to |events|
      invariant EventsOperations(ss58, cur, events[..eventIndex]) == Ok(operations)
    {
      EventsOperationsStep(ss58, cur, events, eventIndex, operations);
      if events[eventIndex].None? {
        ErrorPersists(ss58, cur, events, eventIndex + 1);
        return Err(EventUndecodable);
      }
      var event := events[eventIndex].value;
      var parsed := OperationDataOf(ss58, event);
      if parsed.Err? {
        ErrorPersists(ss58, cur, events, eventIndex + 1);
        return Err(parsed.error);
      }
      var data := parsed.value;
      ghost var expected := EventOperations(cur, eventIndex, data, event.meta);
      ghost var before := operations;
      var metadata := Some(EventFields(event.meta));
      var opNegAmount := if data.amount.Some? then Some(Amount(true, data.amount.value, cur)) else None;
      operations := operations + [Operation(eventIndex, None, data.kind, None, data.from, opNegAmount, metadata)];
      if data.to.Some? && data.amount.Some? {
        operations := operations + [Operation(eventIndex, None, data.kind, None, data.to,
                                              Some(Amount(false, data.amount.value, cur)), metadata)];
      }
      assert operations == before + expected;
    }
    assert events[..|events|] == events;
    return Ok(Transaction(hash, operations));
  }

  /** The operations of `n` events carry the event positions in order:
      the first is 0, the last n - 1, and each differs from the one before
      by 0 (the receiver of the same event) or 1 (the next event). */
  predicate EventIndexed(ops: seq<Operation>, n: nat) {
    && (ops == [] <==> n == 0)
    && (ops != [] ==> ops[0].index == 0 && ops[|ops| - 1].index == n - 1)
    && (forall i :: 0 < i < |ops| ==> ops[i].index == ops[i - 1].index || ops[i].index == ops[i - 1].index + 1)
  }

  /** Two consecutive operations with the same index are the sender and
      receiver of one event: the same type and metadata, opposite amounts,
      and the second has an account. */
  predicate ReceiverPaired(ops: seq<Operation>, cur: Currency) {
    forall i :: 0 < i < |ops| && ops[i].index == ops[i - 1].index ==>
      && ops[i].kind == ops[i - 1].kind && ops[i].metadata == ops[i - 1].metadata
      && ops[i].account.Some? && ops[i].amount.Some? && !ops[i].amount.value.negative
      && ops[i - 1].amount == Some(Amount(true, ops[i].amount.value.magnitude, cur))
  }

  /** The operations of a nonempty event list are those of all but its last
      event, followed by the last event's. */
  lemma EventsOperationsLast(ss58: seq<byte> -> string, cur: Currency, events: seq<Option<Event>>)
    requires events != [] && EventsOperations(ss58, cur, events).Ok?
    ensures var init := events[..|events| - 1];
      && EventsOperations(ss58, cur, init).Ok?
      && ParseEvent(ss58, events[|events| - 1]).Ok?
      && EventsOperations(ss58, cur, events).value
         == EventsOperations(ss58, cur, init).value
            + EventOperations(cur, |events| - 1, ParseEvent(ss58, events[|events| - 1]).value,
                              events[|events| - 1].value.meta)
  {
  }

  lemma {:induction false} EventOpsIndexed(ss58: seq<byte> -> string, cur: Currency, events: seq<Option<Event>>)
    requires EventsOperations(ss58, cur, events).Ok?
    ensures EventIndexed(EventsOperations(ss58, cur, events).value, |events|)
    decreases |events|
  {
    if events != [] {
      var init := events[..|events| - 1];
      EventsOperationsLast(ss58, cur, events);
      var ops := EventsOperations(ss58, cur, events).value;
      var prev := EventsOperations(ss58, cur, init).value;
      var here := EventOperations(cur, |events| - 1, ParseEvent(ss58, events[|events| - 1]).value,
                                  events[|events| - 1].value.meta);
      assert ops == prev + here;
      EventOpsIndexed(ss58, cur, init);
      forall i | 0 < i < |ops|
        ensures ops[i].index == ops[i - 1].index || ops[i].index == ops[i - 1].index + 1
      {
        if i < |prev| {
          assert ops[i] == prev[i] && ops[i - 1] == prev[i - 1];
        } else if i == |prev| {
          assert ops[i - 1] == prev[|prev| - 1];
        }
      }
      if prev != [] {
        assert ops[0] == prev[0];
      }
    }
  }

  /** The operations of one event are paired. */
  lemma EventOperationsPaired(cur: Currency, index: nat, d: OperationData, meta: seq<FieldMeta>)
    ensures ReceiverPaired(EventOperations(cur, index, d, meta), cur)
  {
  }

  /** Pairing survives appending the operations of a new event, whose
      index differs from that of every earlier operation. */
  lemma PairedAppend(prev: seq<Operation>, here: seq<Operation>, cur: Currency, n: int)
    requires ReceiverPaired(prev, cur) && ReceiverPaired(here, cur)
    requires prev != [] ==> prev[|prev| - 1].index == n - 1
    requires here != [] && here[0].index == n
    ensures ReceiverPaired(prev + here, cur)
  {
    var ops := prev + here;
    forall i | 0 < i < |ops| && ops[i].index == ops[i - 1].index
      ensures ops[i].kind == ops[i - 1].kind && ops[i].metadata == ops[i - 1].metadata
      ensures ops[i].account.Some? && ops[i].amount.Some? && !ops[i].amount.value.negative
      ensures ops[i - 1].amount == Some(Amount(true, ops[i].amount.value.magnitude, cur))
    {
      if i < |prev| {
        assert ops[i] == prev[i] && ops[i - 1] == prev[i - 1];
      } else if i == |prev| {
        assert false;
      } else {
        assert ops[i] == here[i - |prev|] && ops[i - 1] == here[i - |prev| - 1];
      }
    }
  }

  lemma {:induction false} EventOpsPaired(ss58: seq<byte> -> string, cur: Currency, events: seq<Option<Event>>)
    requires EventsOperations(ss58, cur, events).Ok?
    ensures ReceiverPaired(EventsOperations(ss58, cur, events).value, cur)
    decreases |events|
  {
    if events != [] {
      var init := events[..|events| - 1];
      EventsOperationsLast(ss58, cur, events);
      var prev := EventsOperations(ss58, cur, init).value;
      var here := EventOperations(cur, |events| - 1, ParseEvent(ss58, events[|events| - 1]).value,
                                  events[|events| - 1].value.meta);
      EventOpsPaired(ss58, cur, init);
      EventOpsIndexed(ss58, cur, init);
      EventOperationsPaired(cur, |events| - 1, ParseEvent(ss58, events[|events| - 1]).value,
                            events[|events| - 1].value.meta);
      PairedAppend(prev, here, cur, |events| - 1);
    }
  }

  /** No event operation carries a status. */
  lemma {:induction false} EventOpsWithoutStatus(ss58: seq<byte> -> string, cur: Currency, events: seq<Option<Event>>)
    requires EventsOperations(ss58, cur, events).Ok?
    ensures forall i :: 0 <= i < |EventsOperations(ss58, cur, events).value| ==>
      EventsOperations(ss58, cur, events).value[i].status.None?
    decreases |events|
  {
    if events != [] {
      var init := events[..|events| - 1];
      EventsOperationsLast(ss58, cur, events);
      var ops := EventsOperations(ss58, cur, events).value;
      var prev := EventsOperations(ss58, cur, init).value;
      EventOpsWithoutStatus(ss58, cur, init);
      forall i | 0 <= i < |ops|
        ensures ops[i].status.None?
      {
        if i < |prev| { assert ops[i] == prev[i]; }
      }
    }
  }
}
