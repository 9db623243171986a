/** The pure helpers of open_trails/functions.py: the upload filename check,
    `encode_list`, and the named-trail aggregation `make_name_trails`. */
module Functions {
  import opened Sequences
  import opened Text
  import opened Values

  /** Position of the last occurrence of `c` in `s`. */
  function LastIndexOf(s: string, c: char): (k: nat)
    requires c in s
    ensures k < |s| && s[k] == c
    ensures c !in s[k + 1..]
  {
    if s[|s| - 1] == c then |s| - 1
    else
      assert c in s[..|s| - 1] by {
        var i :| 0 <= i < |s| && s[i] == c;
        assert s[..|s| - 1][i] == c;
      }
      LastIndexOf(s[..|s| - 1], c)
  }

  /** `s.rsplit(c, 1)`: the whole string when `c` does not occur, otherwise
      the text before and after the last `c`. */
  function RSplitOnce(s: string, c: char): (parts: seq<string>)
    ensures c !in s ==> parts == [s]
    ensures c in s ==> |parts| == 2 && parts[0] + [c] + parts[1] == s && c !in parts[1]
  {
    if c !in s then [s]
    else
      var k := LastIndexOf(s, c);
      assert s[..k] + [c] + s[k + 1..] == s;
      [s[..k], s[k + 1..]]
  }

  /** A name ending in ".zip" has its last dot four places from the end. */
  lemma ZipSuffixLastDot(s: string)
    requires |s| >= 4 && s[|s| - 4..] == ".zip"
    ensures '.' in s && LastIndexOf(s, '.') == |s| - 4
  {
    assert s[|s| - 4] == '.';
    var k := LastIndexOf(s, '.');
  }

  /** `allowed_file`: the name has a dot and the text after the last dot is
      exactly `zip` (case-sensitive); that is, the name ends in `.zip`. */
  function AllowedFile(filename: string): (ok: bool)
    ensures ok <==> |filename| >= 4 && filename[|filename| - 4..] == ".zip"
  {
    var ok := '.' in filename && RSplitOnce(filename, '.')[1] in {"zip"};
    var n := |filename|;
    if n >= 4 && filename[n - 4..] == ".zip" then
      ZipSuffixLastDot(filename);
      assert RSplitOnce(filename, '.')[1] == filename[n - 3..] == filename[n - 4..][1..] == "zip";
      ok
    else
      ok
  }

  /** `encode_list`: the `str` of each item, joined with "; ". Splitting the
      result on "; " gives the items back when none of them contains `;`. */
  function EncodeList(items: seq<Value>): (r: string)
    ensures |items| == 0 ==> r == ""
    ensures |items| == 1 ==> r == Show(items[0])
    ensures |items| > 0 && (forall i :: 0 <= i < |items| ==> ';' !in Show(items[i])) ==>
              SplitList(r) == ShowAll(items)
  {
    var r := Join(ShowAll(items), "; ");
    if |items| > 0 && (forall i :: 0 <= i < |items| ==> ';' !in Show(items[i])) then
      SplitJoin(ShowAll(items));
      r
    else r
  }

  /** A segment can be read by `make_name_trails`: it has a `name`, and an
      `id` whenever that name is truthy (the `id` is read only then). */
  predicate NameTrailsReady(p: Properties) {
    "name" in p && (Truthy(p["name"]) ==> "id" in p)
  }

  ghost predicate AllNameTrailsReady<G>(fs: seq<Feature<G, Properties>>) {
    forall i :: 0 <= i < |fs| ==> NameTrailsReady(fs[i].properties)
  }

  /** The `(name, id)` pairs of the segments with a truthy name, in input
      order. */
  function NamedPairs<G>(fs: seq<Feature<G, Properties>>): (pairs: seq<(Value, Value)>)
    requires AllNameTrailsReady(fs)
    ensures |pairs| <= |fs|
    ensures forall i :: 0 <= i < |pairs| ==> Truthy(pairs[i].0)
    ensures pairs == [] <==> forall i :: 0 <= i < |fs| ==> !Truthy(fs[i].properties["name"])
    ensures |fs| == 1 ==> pairs == (if Truthy(fs[0].properties["name"])
                                    then [(fs[0].properties["name"], fs[0].properties["id"])] else [])
    ensures forall x :: x in pairs <==>
              exists i :: 0 <= i < |fs| && Truthy(fs[i].properties["name"]) &&
                          x == (fs[i].properties["name"], fs[i].properties["id"])
  {
    if |fs| == 0 then []
    else
      var p := fs[0].properties;
      var rest := NamedPairs(fs[1..]);
      assert forall i :: 1 <= i < |fs| ==> fs[1..][i - 1] == fs[i];
      (if Truthy(p["name"]) then [(p["name"], p["id"])] else []) + rest
  }

  /** Selecting named segments distributes over concatenation. */
  lemma {:induction false} NamedPairsAppend<G>(a: seq<Feature<G, Properties>>, b: seq<Feature<G, Properties>>)
    requires AllNameTrailsReady(a) && AllNameTrailsReady(b)
    ensures AllNameTrailsReady(a + b)
    ensures NamedPairs(a + b) == NamedPairs(a) + NamedPairs(b)
  {
    assert AllNameTrailsReady(a + b) by {
      forall i | 0 <= i < |a + b|
        ensures NameTrailsReady((a + b)[i].properties)
      {
        if i >= |a| {
          assert (a + b)[i] == b[i - |a|];
        }
      }
    }
    if |a| > 0 {
      assert (a + b)[1..] == a[1..] + b;
      NamedPairsAppend(a[1..], b);
    } else {
      assert a + b == b;
    }
  }

  /** `itertools.groupby` on pairs keyed by their first component: maximal
      runs of consecutive pairs with equal keys, each with its values in
      order. Equal keys that are not adjacent form separate groups. */
  function GroupRuns<K(==), V>(xs: seq<(K, V)>): (gs: seq<(K, seq<V>)>)
    ensures |gs| <= |xs|
    ensures |xs| == 0 <==> |gs| == 0
    ensures |xs| > 0 ==> gs[0].0 == xs[0].0
    ensures forall i :: 0 <= i < |gs| ==> |gs[i].1| > 0
    ensures forall i :: 0 <= i < |gs| - 1 ==> gs[i].0 != gs[i + 1].0
  {
    if |xs| == 0 then []
    else
      var rest := GroupRuns(xs[1..]);
      if |rest| > 0 && rest[0].0 == xs[0].0 then
        [(xs[0].0, [xs[0].1] + rest[0].1)] + rest[1..]
      else
        [(xs[0].0, [xs[0].1])] + rest
  }

  /** Every group key is the key of some input pair; here, of a named
      segment. */
  lemma {:induction false} GroupRunsTruthyKeys(xs: seq<(Value, Value)>)
    requires forall i :: 0 <= i < |xs| ==> Truthy(xs[i].0)
    ensures forall i :: 0 <= i < |GroupRuns(xs)| ==> Truthy(GroupRuns(xs)[i].0)
  {
    if |xs| > 0 {
      assert forall j :: 0 <= j < |xs| - 1 ==> xs[1..][j] == xs[j + 1];
      GroupRunsTruthyKeys(xs[1..]);
    }
  }

  /** Each value of a group, tagged with the group's key. */
  function Tag<K, V>(k: K, vs: seq<V>): (r: seq<(K, V)>)
    ensures |r| == |vs|
    ensures forall i :: 0 <= i < |vs| ==> r[i] == (k, vs[i])
  {
    seq(|vs|, i requires 0 <= i < |vs| => (k, vs[i]))
  }

  /** Undoes a grouping: every group's values, tagged with its key, in order. */
  function Expand<K, V>(gs: seq<(K, seq<V>)>): seq<(K, V)> {
    if |gs| == 0 then [] else Tag(gs[0].0, gs[0].1) + Expand(gs[1..])
  }

  /** A grouping as `groupby` produces it: no empty group, and no two adjacent
      groups with the same key. */
  ghost predicate MaximalRuns<K, V>(gs: seq<(K, seq<V>)>) {
    && (forall i :: 0 <= i < |gs| ==> |gs[i].1| > 0)
    && (forall i :: 0 <= i < |gs| - 1 ==> gs[i].0 != gs[i + 1].0)
  }

  /** Expanding the groups gives back the input: no pair is lost, added or
      reordered. */
  lemma {:induction false} ExpandGroupRuns<K, V>(xs: seq<(K, V)>)
    ensures Expand(GroupRuns(xs)) == xs
  {
    if |xs| > 0 {
      var rest := GroupRuns(xs[1..]);
      ExpandGroupRuns(xs[1..]);
      var x := xs[0];
      if |rest| > 0 && rest[0].0 == x.0 {
        var gs := GroupRuns(xs);
        assert gs == [(x.0, [x.1] + rest[0].1)] + rest[1..];
        assert gs[1..] == rest[1..];
        assert Tag(x.0, [x.1] + rest[0].1) == [x] + Tag(rest[0].0, rest[0].1);
        assert Expand(rest) == Tag(rest[0].0, rest[0].1) + Expand(rest[1..]);
        assert xs == [x] + xs[1..];
      } else {
        var gs := GroupRuns(xs);
        assert gs == [(x.0, [x.1])] + rest;
        assert gs[1..] == rest;
        assert Tag(x.0, [x.1]) == [x];
        assert xs == [x] + xs[1..];
      }
    }
  }

  /** The first pair of an expansion carries the first group's key. */
  lemma ExpandHead<K, V>(gs: seq<(K, seq<V>)>)
    requires |gs| > 0 && |gs[0].1| > 0
    ensures |Expand(gs)| > 0 && Expand(gs)[0].0 == gs[0].0
  {
  }

  /** Grouping a run of one key followed by pairs that start with another key
      splits off exactly that run. */
  lemma {:induction false} GroupRunsOfRun<K, V>(k: K, vs: seq<V>, ys: seq<(K, V)>)
    requires |vs| > 0
    requires |ys| > 0 ==> ys[0].0 != k
    ensures GroupRuns(Tag(k, vs) + ys) == [(k, vs)] + GroupRuns(ys)
    decreases |vs|
  {
    var xs := Tag(k, vs) + ys;
    assert xs[0] == (k, vs[0]);
    if |vs| == 1 {
      assert xs[1..] == ys;
      assert vs == [vs[0]];
    } else {
      assert xs[1..] == Tag(k, vs[1..]) + ys;
      GroupRunsOfRun(k, vs[1..], ys);
      assert [vs[0]] + vs[1..] == vs;
    }
  }

  /** Grouping the expansion of maximal runs gives the runs back, so
      `GroupRuns` is the only grouping into maximal runs. */
  lemma {:induction false} GroupRunsExpand<K, V>(gs: seq<(K, seq<V>)>)
    requires MaximalRuns(gs)
    ensures GroupRuns(Expand(gs)) == gs
  {
    if |gs| > 0 {
      assert MaximalRuns(gs[1..]) by {
        forall i | 0 <= i < |gs[1..]| - 1
          ensures gs[1..][i].0 != gs[1..][i + 1].0
        {
          assert gs[i + 1].0 != gs[i + 2].0;
        }
      }
      GroupRunsExpand(gs[1..]);
      if |gs| > 1 {
        ExpandHead(gs[1..]);
      }
      GroupRunsOfRun(gs[0].0, gs[0].1, Expand(gs[1..]));
      assert [(gs[0].0, gs[0].1)] + gs[1..] == gs;
    }
  }

  /** One row of `named_trails.csv`. */
  datatype NamedTrail = NamedTrail(
    id: string,
    name: Value,
    segmentIds: string,
    description: Value,
    partOf: Value)

  /** `make_name_trails`: segments with a falsy name are dropped first; then
      one entry per run of consecutive remaining segments sharing a name,
      numbered "1", "2", ... in output order. */
  function MakeNameTrails<G>(fs: seq<Feature<G, Properties>>): (trails: seq<NamedTrail>)
    requires AllNameTrailsReady(fs)
    ensures |trails| <= |fs|
    ensures trails == [] <==> forall i :: 0 <= i < |fs| ==> !Truthy(fs[i].properties["name"])
    ensures forall i :: 0 <= i < |trails| ==>
              && trails[i].id == DecimalString(i + 1)
              && trails[i].description == Null
              && trails[i].partOf == Null
              && Truthy(trails[i].name)
    ensures forall i :: 0 <= i < |trails| - 1 ==> trails[i].name != trails[i + 1].name
  {
    var pairs := NamedPairs(fs);
    if |pairs| == 0 then []
    else
      var groups := GroupRuns(pairs);
      GroupRunsTruthyKeys(pairs);
      seq(|groups|, i requires 0 <= i < |groups| =>
        NamedTrail(DecimalString(i + 1), groups[i].0, EncodeList(groups[i].1), Null, Null))
  }

  /** The entries are the runs of the named segments, with their ids encoded. */
  lemma MakeNameTrailsGroups<G>(fs: seq<Feature<G, Properties>>)
    requires AllNameTrailsReady(fs)
    ensures var gs := GroupRuns(NamedPairs(fs));
            var trails := MakeNameTrails(fs);
            |trails| == |gs| &&
            forall i :: 0 <= i < |gs| ==>
              trails[i].name == gs[i].0 && trails[i].segmentIds == EncodeList(gs[i].1)
  {
  }

  /** Distinct entries have distinct ids. */
  lemma MakeNameTrailsIdsDistinct<G>(fs: seq<Feature<G, Properties>>)
    requires AllNameTrailsReady(fs)
    ensures var trails := MakeNameTrails(fs);
            forall i, j :: 0 <= i < j < |trails| ==> trails[i].id != trails[j].id
  {
    var trails := MakeNameTrails(fs);
    forall i, j | 0 <= i < j < |trails|
      ensures trails[i].id != trails[j].id
    {
      if trails[i].id == trails[j].id {
        DecimalStringInjective(i + 1, j + 1);
      }
    }
  }

  /** A segment without a truthy name changes nothing. */
  lemma UnnamedSegmentIgnored<G>(a: seq<Feature<G, Properties>>, f: Feature<G, Properties>, b: seq<Feature<G, Properties>>)
    requires AllNameTrailsReady(a) && AllNameTrailsReady(b)
    requires NameTrailsReady(f.properties) && !Truthy(f.properties["name"])
    ensures AllNameTrailsReady(a + [f] + b)
    ensures MakeNameTrails(a + [f] + b) == MakeNameTrails(a + b)
  {
    NamedPairsAppend(a, [f]);
    NamedPairsAppend(a + [f], b);
    NamedPairsAppend(a, b);
    assert NamedPairs([f]) == [];
    assert NamedPairs(a) + [] == NamedPairs(a);
  }

  /** The values of a sequence of pairs. */
  function ValuesOf<K, V>(xs: seq<(K, V)>): (vs: seq<V>)
    ensures |vs| == |xs|
    ensures forall i :: 0 <= i < |xs| ==> vs[i] == xs[i].1
  {
    seq(|xs|, i requires 0 <= i < |xs| => xs[i].1)
  }

  /** The id lists recovered from each group's encoding, concatenated. */
  function DecodedIds(gs: seq<(Value, seq<Value>)>): seq<string> {
    if |gs| == 0 then [] else SplitList(EncodeList(gs[0].1)) + DecodedIds(gs[1..])
  }

  /** Taking values and rendering them distribute over concatenation, and
      the values of a tagged group are the group's values. */
  lemma ShowValuesAppend<K>(k: K, vs: seq<Value>, e: seq<(K, Value)>)
    ensures ShowAll(ValuesOf(Tag(k, vs) + e)) == ShowAll(vs) + ShowAll(ValuesOf(e))
  {
    assert ValuesOf(Tag(k, vs) + e) == vs + ValuesOf(e);
  }

  /** Decoding every group's encoding gives the rendered values of the
      flattened groups, when no value renders with a `;`. */
  lemma {:induction false} DecodedIdsOfRuns(gs: seq<(Value, seq<Value>)>)
    requires forall i :: 0 <= i < |gs| ==> |gs[i].1| > 0
    requires forall i :: 0 <= i < |Expand(gs)| ==> ';' !in Show(Expand(gs)[i].1)
    ensures DecodedIds(gs) == ShowAll(ValuesOf(Expand(gs)))
  {
    if |gs| > 0 {
      var t := Tag(gs[0].0, gs[0].1);
      var e := Expand(gs[1..]);
      assert Expand(gs) == t + e;
      assert forall i :: 0 <= i < |e| ==> ';' !in Show(e[i].1) by {
        forall i | 0 <= i < |e|
          ensures ';' !in Show(e[i].1)
        {
          assert e[i] == Expand(gs)[i + |t|];
        }
      }
      DecodedIdsOfRuns(gs[1..]);
      assert forall i :: 0 <= i < |gs[0].1| ==> ';' !in Show(gs[0].1[i]) by {
        forall i | 0 <= i < |gs[0].1|
          ensures ';' !in Show(gs[0].1[i])
        {
          assert gs[0].1[i] == Expand(gs)[i].1;
        }
      }
      assert SplitList(EncodeList(gs[0].1)) == ShowAll(gs[0].1);
      ShowValuesAppend(gs[0].0, gs[0].1, e);
    }
  }

  /** The ids of the named segments, in input order. */
  function NamedIds<G>(fs: seq<Feature<G, Properties>>): seq<Value>
    requires AllNameTrailsReady(fs)
  {
    ValuesOf(NamedPairs(fs))
  }

  /** Splitting every entry's `segment_ids` on "; " and concatenating gives
      the ids of the named segments in input order, provided no id contains
      `;`: every named segment lands in exactly one entry, in order. */
  lemma SegmentIdsPartitionNamedSegments<G>(fs: seq<Feature<G, Properties>>)
    requires AllNameTrailsReady(fs)
    requires forall i :: 0 <= i < |NamedIds(fs)| ==> ';' !in Show(NamedIds(fs)[i])
    ensures var trails := MakeNameTrails(fs);
            Concat(seq(|trails|, i requires 0 <= i < |trails| => SplitList(trails[i].segmentIds)))
              == ShowAll(NamedIds(fs))
  {
    var pairs := NamedPairs(fs);
    var gs := GroupRuns(pairs);
    var trails := MakeNameTrails(fs);
    ExpandGroupRuns(pairs);
    assert forall i :: 0 <= i < |pairs| ==> NamedIds(fs)[i] == pairs[i].1;
    DecodedIdsOfRuns(gs);
    ConcatDecoded(gs, trails);
  }

  lemma {:induction false} ConcatDecoded(gs: seq<(Value, seq<Value>)>, trails: seq<NamedTrail>)
    requires |trails| == |gs|
    requires forall i :: 0 <= i < |gs| ==> trails[i].segmentIds == EncodeList(gs[i].1)
    ensures Concat(seq(|trails|, i requires 0 <= i < |trails| => SplitList(trails[i].segmentIds)))
              == DecodedIds(gs)
  {
    if |gs| > 0 {
      ConcatDecoded(gs[1..], trails[1..]);
      var whole := seq(|trails|, i requires 0 <= i < |trails| => SplitList(trails[i].segmentIds));
      var tail := seq(|trails[1..]|, i requires 0 <= i < |trails[1..]| => SplitList(trails[1..][i].segmentIds));
      assert whole[1..] == tail;
    }
  }
}
