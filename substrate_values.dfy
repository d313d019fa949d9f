/** Decoded SCALE event values, and how an account address is read out of
    one (`generate_address`). */
module SubstrateValues {
  import opened Rosetta

  type byte = x: int | 0 <= x < 256

  const TWO_TO_128: nat := 0x1_0000_0000_0000_0000_0000_0000_0000_0000

  type Uint128 = n: nat | n < TWO_TO_128

  /** The primitives the normaliser distinguishes; the others are lumped
      together. */
  datatype Primitive = U128(n: Uint128) | OtherPrimitive

  /** A decoded value (`ValueDef`, without its type context): a composite, a
      primitive, or a variant or bit sequence, which are never accepted. */
  datatype Value = CompositeValue(c: Composite) | PrimitiveValue(p: Primitive) | OtherValue

  datatype NamedField = NamedField(name: string, value: Value)

  datatype Composite = Named(fields: seq<NamedField>) | Unnamed(values: seq<Value>)

  /** The values of a composite in order, dropping the names of a named one
      (`Composite::values`). */
  function Values(c: Composite): seq<Value> {
    match c
    case Unnamed(vs) => vs
    case Named(fs) => seq(|fs|, i requires 0 <= i < |fs| => fs[i].value)
  }

  predicate IsU128(v: Value) {
    v.PrimitiveValue? && v.p.U128?
  }

  /** A composite (of either kind) whose values are all `U128`. */
  predicate InnerShaped(v: Value) {
    v.CompositeValue? && forall i :: 0 <= i < |Values(v.c)| ==> IsU128(Values(v.c)[i])
  }

  /** The shape `generate_address` accepts: an unnamed composite whose
      elements are composites of `U128` primitives. */
  predicate AddressShaped(v: Value) {
    v.CompositeValue? && v.c.Unnamed? && forall i :: 0 <= i < |v.c.values| ==> InnerShaped(v.c.values[i])
  }

  /** Each `U128` truncated to its low byte (`val as u8`). */
  function Truncate(ps: seq<Value>): (r: seq<byte>)
    requires forall i :: 0 <= i < |ps| ==> IsU128(ps[i])
    ensures |r| == |ps|
  {
    seq(|ps|, i requires 0 <= i < |ps| && IsU128(ps[i]) => ps[i].p.n % 256)
  }

  /** The bytes of a sequence of inner composites, concatenated in order. */
  function ElementBytes(vs: seq<Value>): seq<byte>
    requires forall i :: 0 <= i < |vs| ==> InnerShaped(vs[i])
  {
    if vs == [] then []
    else
      var last := vs[|vs| - 1];
      assert InnerShaped(last);
      ElementBytes(vs[..|vs| - 1]) + Truncate(Values(last.c))
  }

  function AddressBytes(v: Value): seq<byte>
    requires AddressShaped(v)
  {
    ElementBytes(v.c.values)
  }

  datatype SubstrateError = EventUndecodable | FieldsUndecodable | InvalidOperation

  /** What `generate_address` returns; `ss58` stands for
      `Address::from_public_key_bytes` under the configured address format. */
  function AddressOf(ss58: seq<byte> -> string, v: Value): Result<string, SubstrateError> {
    if AddressShaped(v) then Ok(ss58(AddressBytes(v))) else Err(InvalidOperation)
  }

  /** `generate_address`: collect the low byte of every inner value, failing
      on the first element or value of the wrong shape. */
  method GenerateAddress(ss58: seq<byte> -> string, v: Value) returns (r: Result<string, SubstrateError>)
    ensures r.Ok? <==> AddressShaped(v)
    ensures r.Ok? ==> r.value == ss58(AddressBytes(v))
    ensures r.Err? ==> r.error == InvalidOperation
  {
    var addrArray: seq<byte> := [];
    if !(v.CompositeValue? && v.c.Unnamed?) {
      return Err(InvalidOperation);
    }
    var unnamedData := v.c.values;
    for i := 0 to |unnamedData|
      invariant forall k :: 0 <= k < i ==> InnerShaped(unnamedData[k])
      invariant addrArray == ElementBytes(unnamedData[..i])
    {
      var valueData := unnamedData[i];
      if !valueData.CompositeValue? {
        return Err(InvalidOperation);
      }
      var data := Values(valueData.c);
      ghost var before := addrArray;
      for j := 0 to |data|
        invariant forall k :: 0 <= k < j ==> IsU128(data[k])
        invariant addrArray == before + Truncate(data[..j])
      {
        match data[j]
        case PrimitiveValue(U128(n)) =>
          assert Truncate(data[..j + 1]) == Truncate(data[..j]) + [n % 256];
          addrArray := addrArray + [n % 256];
        case _ =>
          return Err(InvalidOperation);
      }
      assert data[..|data|] == data;
      assert unnamedData[..i + 1][..i] == unnamedData[..i];
    }
    assert unnamedData[..|unnamedData|] == unnamedData;
    return Ok(ss58(addrArray));
  }

  /** Bytes grouped into inner composites, as an `AccountId32`-like value
      decodes: one unnamed composite of `U128`s per group. */
  function EncodeGroups(groups: seq<seq<byte>>): (r: seq<Value>)
    ensures |r| == |groups|
  {
    seq(|groups|, i requires 0 <= i < |groups| =>
      CompositeValue(Unnamed(seq(|groups[i]|, j requires 0 <= j < |groups[i]| =>
        PrimitiveValue(U128(groups[i][j]))))))
  }

  function Concat(groups: seq<seq<byte>>): seq<byte> {
    if groups == [] then [] else Concat(groups[..|groups| - 1]) + groups[|groups| - 1]
  }

  /** Every byte fits in a `U128`, so encoded groups have the accepted
      shape. */
  lemma EncodeGroupsShaped(groups: seq<seq<byte>>)
    ensures AddressShaped(CompositeValue(Unnamed(EncodeGroups(groups))))
  {
    var vs := EncodeGroups(groups);
    forall i | 0 <= i < |vs|
      ensures InnerShaped(vs[i])
    {
      assert Values(vs[i].c) == vs[i].c.values;
    }
  }

  /** A byte survives the truncation of its encoding. */
  lemma TruncateEncoded(g: seq<byte>)
    ensures var v := CompositeValue(Unnamed(seq(|g|, j requires 0 <= j < |g| => PrimitiveValue(U128(g[j])))));
      InnerShaped(v) && Truncate(Values(v.c)) == g
  {
  }

  /** Reading bytes back out of their encoding gives the bytes. */
  lemma {:induction false} AddressBytesRoundTrip(groups: seq<seq<byte>>)
    ensures AddressShaped(CompositeValue(Unnamed(EncodeGroups(groups))))
    ensures AddressBytes(CompositeValue(Unnamed(EncodeGroups(groups)))) == Concat(groups)
    decreases |groups|
  {
    EncodeGroupsShaped(groups);
    if groups != [] {
      var vs := EncodeGroups(groups);
      var init := groups[..|groups| - 1];
      var last := groups[|groups| - 1];
      assert EncodeGroups(init) == vs[..|vs| - 1];
      AddressBytesRoundTrip(init);
      TruncateEncoded(last);
      assert vs[|vs| - 1]
             == CompositeValue(Unnamed(seq(|last|, j requires 0 <= j < |last| => PrimitiveValue(U128(last[j])))));
    }
  }

  /** A public key decoded as a single group (an `AccountId32` holding its
      32 bytes, say) yields exactly its own bytes. */
  lemma AccountIdRoundTrip(key: seq<byte>)
    ensures AddressBytes(CompositeValue(Unnamed(EncodeGroups([key])))) == key
  {
    AddressBytesRoundTrip([key]);
    assert [key][..0] == [];
  }

  /** Values of any width are cut to their low byte: a single group of
      `U128`s yields each value modulo 256, in order. */
  lemma SingleGroupTruncates(ns: seq<Uint128>)
    ensures var v := CompositeValue(Unnamed([CompositeValue(Unnamed(
                       seq(|ns|, i requires 0 <= i < |ns| => PrimitiveValue(U128(ns[i])))))]));
      && AddressShaped(v)
      && |AddressBytes(v)| == |ns|
      && forall i :: 0 <= i < |ns| ==> AddressBytes(v)[i] == ns[i] % 256
  {
    var inner := CompositeValue(Unnamed(seq(|ns|, i requires 0 <= i < |ns| => PrimitiveValue(U128(ns[i])))));
    var v := CompositeValue(Unnamed([inner]));
    assert Values(inner.c) == inner.c.values;
    assert InnerShaped(inner);
    assert [inner][..0] == [];
    assert AddressBytes(v) == ElementBytes([]) + Truncate(Values(inner.c));
  }

  /** Every value outside the accepted shape is refused: a primitive, a
      named outer composite, or an element that is no composite. */
  lemma RefusedShapes(ss58: seq<byte> -> string, p: Primitive, fields: seq<NamedField>, vs: seq<Value>, k: nat)
    requires k < |vs| && !vs[k].CompositeValue?
    ensures AddressOf(ss58, PrimitiveValue(p)) == Err(InvalidOperation)
    ensures AddressOf(ss58, CompositeValue(Named(fields))) == Err(InvalidOperation)
    ensures AddressOf(ss58, CompositeValue(Unnamed(vs))) == Err(InvalidOperation)
  {
    assert !InnerShaped(vs[k]);
  }
}
