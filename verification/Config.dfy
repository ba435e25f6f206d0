/** The parts of the gateway configuration that the models share. */
module Config {

  /** One configured backend; url and header texts are kept as they are written. */
  datatype Backend = Backend(
    name: string,
    url: string,
    weight: int,
    tag: string,
    headers: map<string, string>,
    timeout: int,
    healthCheckPath: string)

  /** A model's reference to a backend, with the weight of that backend for this model. */
  datatype BackendRef = BackendRef(backend: string, weight: int)

  /** A catalog entry: the display name and the weighted backend references. */
  datatype ModelEntry = ModelEntry(name: string, backends: seq<BackendRef>)

  const DEFAULT_MODEL_WEIGHT := 1
  const DEFAULT_TIMEOUT := 120_000_000_000
  const DEFAULT_HEALTH_CHECK_PATH := "/api/version"

  /** Which texts are URLs; parsing itself is not part of the model. */
  type UrlParser = string -> bool

  predicate Parses(parses: UrlParser, url: string) {
    parses(url)
  }

  ghost predicate DistinctNames(bs: seq<Backend>) {
    forall i, j :: 0 <= i < j < |bs| ==> bs[i].name != bs[j].name
  }

  ghost predicate DistinctRefs(refs: seq<BackendRef>) {
    forall i, j :: 0 <= i < j < |refs| ==> refs[i].backend != refs[j].backend
  }

  predicate Refers(refs: seq<BackendRef>, name: string) {
    exists i :: 0 <= i < |refs| && refs[i].backend == name
  }

  lemma RefersOneMore(refs: seq<BackendRef>)
    ensures forall ref: BackendRef, x: string :: Refers(refs + [ref], x) <==> Refers(refs, x) || ref.backend == x
  {
    forall ref: BackendRef, x: string
      ensures Refers(refs + [ref], x) <==> Refers(refs, x) || ref.backend == x
    {
      var more := refs + [ref];
      if Refers(refs, x) {
        var i :| 0 <= i < |refs| && refs[i].backend == x;
        assert more[i].backend == x;
      }
      if ref.backend == x { assert more[|refs|].backend == x; }
    }
  }

  /** The weight that a reference has in the catalog tables. */
  function Clamp(weight: int): int {
    if weight <= 0 then DEFAULT_MODEL_WEIGHT else weight
  }

  type Catalog = map<string, ModelEntry>

  /** The price of a model's tokens, per million. */
  datatype ModelPricing = ModelPricing(inputCostPer1M: real, outputCostPer1M: real)

  type Pricing = map<string, ModelPricing>

  ghost function Names(bs: seq<Backend>): set<string> {
    set i | 0 <= i < |bs| :: bs[i].name
  }

  lemma NoNames()
    ensures Names([]) == {}
  {
  }

  lemma NamesLast(bs: seq<Backend>, b: Backend)
    ensures Names(bs + [b]) == Names(bs) + {b.name}
  {
    forall n ensures n in Names(bs + [b]) <==> n == b.name || n in Names(bs) {
      if i :| 0 <= i < |bs| && bs[i].name == n { assert (bs + [b])[i].name == n; }
      if n == b.name { assert (bs + [b])[|bs|].name == n; }
    }
  }
}
