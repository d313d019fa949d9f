/** The canonical Rosetta operation model shared by both chain normalisers. */
module Rosetta {

  datatype Option<+T> = None | Some(value: T) {
    function GetOr(default: T): T {
      match this
      case Some(v) => v
      case None => default
    }
  }

  datatype Result<+T, +E> = Ok(value: T) | Err(error: E)

  /** The network currency, supplied by the chain configuration. */
  datatype Currency = Currency(symbol: string, decimals: nat)

  /** An amount as the normalisers print it: `negative` is the literal "-"
      prefix written in front of the decimal magnitude, so "-0" is a value
      of its own. */
  datatype Amount = Amount(negative: bool, magnitude: nat, currency: Currency)

  datatype Status = Success | Failure

  /** One (name, type name) entry of an event's field metadata. */
  datatype FieldMeta = FieldMeta(name: Option<string>, typeName: Option<string>)

  /** Operation metadata; only the event-derived operations carry any. */
  datatype Metadata = EventFields(fields: seq<FieldMeta>)

  /** A Rosetta `Operation`: `index` is `operation_identifier.index`,
      `related` lists the indices of `related_operations`, `kind` is `type`. */
  datatype Operation = Operation(
    index: int,
    related: Option<seq<int>>,
    kind: string,
    status: Option<Status>,
    account: Option<string>,
    amount: Option<Amount>,
    metadata: Option<Metadata>)

  datatype Transaction = Transaction(hash: string, operations: seq<Operation>)

  /** The value the amount denotes, with the sign applied. */
  function SignedValue(a: Option<Amount>): int {
    match a
    case None => 0
    case Some(x) => if x.negative then -(x.magnitude as int) else x.magnitude as int
  }

  /** The operations carry the consecutive indices start, start + 1, ... */
  predicate IndexedFrom(ops: seq<Operation>, start: int) {
    forall i :: 0 <= i < |ops| ==> ops[i].index == start + i
  }

  lemma {:induction false} IndexedFromConcat(a: seq<Operation>, b: seq<Operation>, start: int)
    requires IndexedFrom(a, start) && IndexedFrom(b, start + |a|)
    ensures IndexedFrom(a + b, start)
  {
    forall i | 0 <= i < |a + b|
      ensures (a + b)[i].index == start + i
    {
      if i >= |a| {
        assert (a + b)[i] == b[i - |a|];
      }
    }
  }
}
