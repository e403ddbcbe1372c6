/**
 * `PublicInputs`: where the scalars of a multi-scalar multiplication come
 * from. Either a borrowed slice of representations, or a pure getter that
 * produces the representation for an index on demand.
 */
module PublicInput {
  import opened ScalarRepr

  datatype PublicInputs = Slice(inputs: seq<Repr>) | Getter(f: nat -> Repr)

  /** Index `i` can be fetched: a slice is indexed with a bounds check, a getter takes any index. */
  predicate InRange(k: PublicInputs, i: nat)
  {
    k.Slice? ==> i < |k.inputs|
  }

  /** `get(i)`: the slice element, or the getter's value at `i`. */
  function Get(k: PublicInputs, i: nat): Repr
    requires InRange(k, i)
  {
    match k
    case Slice(inputs) => inputs[i]
    case Getter(f) => f(i)
  }

  /** Indices `[0, n)` can all be fetched. */
  predicate HasPrefix(k: PublicInputs, n: nat)
  {
    k.Slice? ==> n <= |k.inputs|
  }

  /** The scalars at indices `[0, n)` of a source, laid out as a slice. */
  function Scalars(k: PublicInputs, n: nat): (s: seq<Repr>)
    requires HasPrefix(k, n)
    ensures |s| == n
    ensures forall i :: 0 <= i < n ==> InRange(k, i) && s[i] == Get(k, i)
    ensures k.Slice? ==> s == k.inputs[..n]
    ensures k.Getter? ==> forall i :: 0 <= i < n ==> s[i] == k.f(i)
  {
    seq(n, i requires 0 <= i < n && InRange(k, i) => Get(k, i))
  }

  /** A getter yields, index for index, what a slice holding its values yields. */
  lemma GetterAgreesWithSlice(f: nat -> Repr, s: seq<Repr>, n: nat)
    requires n <= |s| && forall i :: 0 <= i < n ==> s[i] == f(i)
    ensures Scalars(Getter(f), n) == Scalars(Slice(s), n) == s[..n]
  {
  }
}
