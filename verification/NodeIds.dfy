/** NodeIds and their total order. The order stands in for the one of the open62541 library:
    namespace index first, then identifier type, then the identifier itself. */
module NodeIds {

  datatype IdType = Numeric | String | Guid | ByteString

  /** The identifier is kept as a sequence of numbers: one for a numeric NodeId, the
      characters or bytes for the other types. */
  datatype NodeId = NodeId(namespaceIndex: nat, idType: IdType, identifier: seq<nat>)

  datatype Order = Less | Equal | More

  const NULL_ID := NodeId(0, Numeric, [0])
  const HAS_TYPE_DEFINITION := NodeId(0, Numeric, [40])

  function TypeRank(t: IdType): nat {
    match t
    case Numeric => 0
    case String => 3
    case Guid => 4
    case ByteString => 5
  }

  function CompareNat(a: nat, b: nat): Order {
    if a < b then Less else if a == b then Equal else More
  }

  /** Sequences of equal length, by their first difference. */
  function CompareElements(a: seq<nat>, b: seq<nat>): Order
    requires |a| == |b|
  {
    if a == [] then Equal
    else if a[0] != b[0] then CompareNat(a[0], b[0])
    else CompareElements(a[1..], b[1..])
  }

  function Compare(a: NodeId, b: NodeId): Order {
    if a.namespaceIndex != b.namespaceIndex then CompareNat(a.namespaceIndex, b.namespaceIndex)
    else if a.idType != b.idType then CompareNat(TypeRank(a.idType), TypeRank(b.idType))
    else if |a.identifier| != |b.identifier| then CompareNat(|a.identifier|, |b.identifier|)
    else CompareElements(a.identifier, b.identifier)
  }

  predicate AtMost(a: NodeId, b: NodeId) {
    Compare(a, b) != More
  }

  lemma {:induction false} ElementsEqual(a: seq<nat>, b: seq<nat>)
    requires |a| == |b|
    ensures CompareElements(a, b) == Equal <==> a == b
  {
    if a != [] && a[0] == b[0] {
      ElementsEqual(a[1..], b[1..]);
      assert a == [a[0]] + a[1..] && b == [b[0]] + b[1..];
    }
  }

  lemma {:induction false} ElementsTransitive(a: seq<nat>, b: seq<nat>, c: seq<nat>)
    requires |a| == |b| == |c|
    requires CompareElements(a, b) != More && CompareElements(b, c) != More
    ensures CompareElements(a, c) != More
    ensures CompareElements(a, b) == Less || CompareElements(b, c) == Less ==> CompareElements(a, c) == Less
  {
    if a != [] && a[0] == b[0] == c[0] {
      ElementsTransitive(a[1..], b[1..], c[1..]);
    }
  }

  lemma {:induction false} ElementsFlip(a: seq<nat>, b: seq<nat>)
    requires |a| == |b|
    ensures CompareElements(a, b) == Less <==> CompareElements(b, a) == More
  {
    if a != [] && a[0] == b[0] {
      ElementsFlip(a[1..], b[1..]);
    }
  }

  /** The order is antisymmetric, total and compatible with equality. */
  lemma CompareIsTotal(a: NodeId, b: NodeId)
    ensures Compare(a, b) == Equal <==> a == b
    ensures Compare(a, b) == Less <==> Compare(b, a) == More
  {
    if |a.identifier| == |b.identifier| {
      ElementsEqual(a.identifier, b.identifier);
      ElementsFlip(a.identifier, b.identifier);
      ElementsFlip(b.identifier, a.identifier);
    }
  }

  lemma CompareIsTransitive(a: NodeId, b: NodeId, c: NodeId)
    requires AtMost(a, b) && AtMost(b, c)
    ensures AtMost(a, c)
    ensures Compare(a, b) == Less || Compare(b, c) == Less ==> Compare(a, c) == Less
  {
    if a.namespaceIndex == c.namespaceIndex && a.idType == c.idType && |a.identifier| == |c.identifier| {
      ElementsTransitive(a.identifier, b.identifier, c.identifier);
    }
  }
}
