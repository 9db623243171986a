/** The dynamically typed values found in GeoJSON feature properties, and the
    two Python operations the core applies to them: truthiness (`if v:`) and
    `str(v)`. */
module Values {
  import Text

  /** A property value, as a shapefile attribute converted to GeoJSON can
      hold it. `Other` stands for the remaining hashable scalars (booleans
      and floats), whose structure the core never inspects; it carries their
      `str()` rendering and truthiness. */
  datatype Value =
    | Null
    | Str(s: string)
    | Num(n: int)
    | Other(text: string, truthy: bool)

  /** Python truthiness: `None`, `""` and `0` are false. */
  predicate Truthy(v: Value) {
    match v
    case Null => false
    case Str(s) => s != ""
    case Num(n) => n != 0
    case Other(_, t) => t
  }

  /** Python `str(v)`. */
  function Show(v: Value): string {
    match v
    case Null => "None"
    case Str(s) => s
    case Num(n) => if n < 0 then "-" + Text.DecimalString(-n) else Text.DecimalString(n)
    case Other(text, _) => text
  }

  /** `[str(v) for v in vs]`. */
  function ShowAll(vs: seq<Value>): (r: seq<string>)
    ensures |r| == |vs|
    ensures forall i :: 0 <= i < |vs| ==> r[i] == Show(vs[i])
  {
    seq(|vs|, i requires 0 <= i < |vs| => Show(vs[i]))
  }

  /** A feature's `properties` dictionary. */
  type Properties = map<string, Value>

  /** A GeoJSON Feature: an opaque geometry `G`, copied through unchanged,
      and properties of type `P`. */
  datatype Feature<G, P> = Feature(geometry: G, properties: P)

  /** A GeoJSON FeatureCollection. */
  datatype FeatureCollection<G, P> = FeatureCollection(features: seq<Feature<G, P>>)

  /** The truthy elements of `vs`, in order (`[v for v in vs if v]`). */
  function TruthyOnly(vs: seq<Value>): (r: seq<Value>)
    ensures |r| <= |vs|
    ensures forall i :: 0 <= i < |r| ==> Truthy(r[i])
    ensures forall v :: v in r <==> v in vs && Truthy(v)
  {
    if |vs| == 0 then []
    else
      var prefix := vs[..|vs| - 1];
      var last := vs[|vs| - 1];
      assert vs == prefix + [last];
      TruthyOnly(prefix) + (if Truthy(last) then [last] else [])
  }

  /** Filtering distributes over concatenation, so it keeps the input order. */
  lemma {:induction false} TruthyOnlyAppend(a: seq<Value>, b: seq<Value>)
    ensures TruthyOnly(a + b) == TruthyOnly(a) + TruthyOnly(b)
    decreases |b|
  {
    if |b| > 0 {
      var b' := b[..|b| - 1];
      assert a + b == (a + b') + [b[|b| - 1]];
      assert (a + b)[..|a + b| - 1] == a + b';
      TruthyOnlyAppend(a, b');
    } else {
      assert a + b == a;
    }
  }
}
