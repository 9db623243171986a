/** Generic sequence helpers shared by the validator's message de-duplication
    and the prototype's first-seen trail numbering. */
module Sequences {

  /** No element occurs twice. */
  ghost predicate NoDuplicates<T>(s: seq<T>) {
    forall i, j :: 0 <= i < j < |s| ==> s[i] != s[j]
  }

  /** Position of the first occurrence of `x` in `s`. */
  function IndexOf<T(==)>(s: seq<T>, x: T): (i: nat)
    requires x in s
    ensures i < |s| && s[i] == x
    ensures x !in s[..i]
  {
    if s[0] == x then 0 else 1 + IndexOf(s[1..], x)
  }

  /** The first occurrence of an element of a prefix does not move when the
      sequence is extended. */
  lemma {:induction false} IndexOfExtend<T>(s: seq<T>, t: seq<T>, x: T)
    requires x in s
    ensures x in s + t && IndexOf(s + t, x) == IndexOf(s, x)
  {
    if s[0] != x {
      assert (s + t)[1..] == s[1..] + t;
      IndexOfExtend(s[1..], t, x);
    }
  }

  /** An element absent from `s` is first found right after it. */
  lemma {:induction false} IndexOfAppendNew<T>(s: seq<T>, x: T)
    requires x !in s
    ensures IndexOf(s + [x], x) == |s|
  {
    if |s| > 0 {
      assert (s + [x])[1..] == s[1..] + [x];
      IndexOfAppendNew(s[1..], x);
    }
  }

  /** Order-preserving de-duplication: scanning left to right, an element is
      kept the first time it is seen and dropped afterwards. */
  function Dedup<T(==,!new)>(s: seq<T>): (d: seq<T>)
    ensures NoDuplicates(d)
    ensures forall x :: x in d <==> x in s
    ensures |d| <= |s|
    decreases |s|
  {
    if |s| == 0 then []
    else
      var prefix := s[..|s| - 1];
      var last := s[|s| - 1];
      assert s == prefix + [last];
      var d := Dedup(prefix);
      if last in d then d else d + [last]
  }

  /** Appending one element to the input appends it to the result exactly
      when it is new. */
  lemma DedupSnoc<T(!new)>(s: seq<T>, x: T)
    ensures Dedup(s + [x]) == if x in s then Dedup(s) else Dedup(s) + [x]
  {
    assert (s + [x])[..|s|] == s;
  }

  /** Elements of the de-duplicated sequence appear in the order of their
      first occurrence in the input. */
  lemma {:induction false} DedupFirstSeenOrder<T(!new)>(s: seq<T>)
    ensures forall i, j :: 0 <= i < j < |Dedup(s)| ==>
              IndexOf(s, Dedup(s)[i]) < IndexOf(s, Dedup(s)[j])
  {
    if |s| > 0 {
      var prefix := s[..|s| - 1];
      var last := s[|s| - 1];
      assert s == prefix + [last];
      DedupFirstSeenOrder(prefix);
      var d := Dedup(prefix);
      forall y | y in prefix
        ensures IndexOf(s, y) == IndexOf(prefix, y) < |prefix|
      {
        IndexOfExtend(prefix, [last], y);
      }
      if last !in d {
        IndexOfAppendNew(prefix, last);
      }
    }
  }

  /** De-duplicating a sequence without repetitions changes nothing. */
  lemma {:induction false} DedupOfDistinct<T(!new)>(s: seq<T>)
    requires NoDuplicates(s)
    ensures Dedup(s) == s
  {
    if |s| > 0 {
      var prefix := s[..|s| - 1];
      assert s == prefix + [s[|s| - 1]];
      DedupOfDistinct(prefix);
    }
  }

  /** De-duplication is idempotent. */
  lemma DedupIdempotent<T(!new)>(s: seq<T>)
    ensures Dedup(Dedup(s)) == Dedup(s)
  {
    DedupOfDistinct(Dedup(s));
  }

  /** Dense numbering of a sequence: each element is mapped to one plus the
      position of its first occurrence. */
  function Numbering<T(==,!new)>(d: seq<T>): (m: map<T, nat>)
    ensures m.Keys == set x | x in d
  {
    map x | x in d :: IndexOf(d, x) + 1
  }

  /** Numbering a sequence extended by a fresh element gives that element the
      next number and leaves the others alone. */
  lemma NumberingAppendNew<T(!new)>(d: seq<T>, x: T)
    requires x !in d
    ensures Numbering(d + [x]) == Numbering(d)[x := |d| + 1]
  {
    IndexOfAppendNew(d, x);
    forall y | y in d
      ensures IndexOf(d + [x], y) == IndexOf(d, y)
    {
      IndexOfExtend(d, [x], y);
    }
  }

  /** Extending the input by one element extends the first-seen numbering:
      a new element gets the next id, a known one changes nothing. */
  lemma FirstSeenNumberingSnoc<T(!new)>(s: seq<T>, x: T)
    ensures x in Numbering(Dedup(s)) <==> x in s
    ensures Numbering(Dedup(s + [x])) ==
              if x in s then Numbering(Dedup(s)) else Numbering(Dedup(s))[x := |Dedup(s)| + 1]
    ensures |Dedup(s + [x])| == if x in s then |Dedup(s)| else |Dedup(s)| + 1
  {
    DedupSnoc(s, x);
    if x !in s {
      NumberingAppendNew(Dedup(s), x);
    }
  }

  /** A sequence without repetitions has as many distinct elements as it has
      positions. */
  lemma {:induction false} DistinctCardinality<T(!new)>(d: seq<T>)
    requires NoDuplicates(d)
    ensures |set x | x in d| == |d|
  {
    if |d| > 0 {
      var prefix := d[..|d| - 1];
      var last := d[|d| - 1];
      assert d == prefix + [last];
      DistinctCardinality(prefix);
      assert (set x | x in d) == (set x | x in prefix) + {last};
    }
  }

  /** The numbering of a sequence without repetitions is a bijection onto
      1..|d| that respects positions. */
  lemma NumberingOfDistinct<T(!new)>(d: seq<T>)
    requires NoDuplicates(d)
    ensures |Numbering(d)| == |d|
    ensures forall i :: 0 <= i < |d| ==> Numbering(d)[d[i]] == i + 1
  {
    DistinctCardinality(d);
    forall i | 0 <= i < |d|
      ensures IndexOf(d, d[i]) == i
    {
      var k := IndexOf(d, d[i]);
      assert d[k] == d[i];
    }
  }

  /** Numbering the distinct elements of `s` in order of first occurrence
      numbers exactly the elements of `s`, with the ids 1..k: the i-th
      distinct element gets i + 1. */
  lemma FirstSeenNumberingDense<T(!new)>(s: seq<T>)
    ensures var m := Numbering(Dedup(s));
            && (forall x :: x in m <==> x in s)
            && |m| == |Dedup(s)|
            && (forall x :: x in m ==> 1 <= m[x] <= |m|)
            && (forall i :: 0 <= i < |Dedup(s)| ==> m[Dedup(s)[i]] == i + 1)
  {
    NumberingOfDistinct(Dedup(s));
  }

  /** Distinct elements get distinct ids. */
  lemma FirstSeenNumberingInjective<T(!new)>(s: seq<T>, x: T, y: T)
    requires x in Numbering(Dedup(s)) && y in Numbering(Dedup(s))
    requires Numbering(Dedup(s))[x] == Numbering(Dedup(s))[y]
    ensures x == y
  {
    var d := Dedup(s);
    assert d[IndexOf(d, x)] == x && d[IndexOf(d, y)] == y;
  }

  /** An earlier first occurrence gets a smaller id. */
  lemma FirstSeenNumberingOrder<T(!new)>(s: seq<T>)
    ensures var m := Numbering(Dedup(s));
            forall x, y :: x in m && y in m ==> (m[x] < m[y] <==> IndexOf(s, x) < IndexOf(s, y))
  {
    var d := Dedup(s);
    var m := Numbering(d);
    DedupFirstSeenOrder(s);
    forall x, y | x in m && y in m
      ensures m[x] < m[y] <==> IndexOf(s, x) < IndexOf(s, y)
    {
      var i, j := IndexOf(d, x), IndexOf(d, y);
      assert m[x] == i + 1 && m[y] == j + 1;
      if i < j {
        assert IndexOf(s, d[i]) < IndexOf(s, d[j]);
      } else if j < i {
        assert IndexOf(s, d[j]) < IndexOf(s, d[i]);
      } else {
        assert x == d[i] == y;
      }
    }
  }

  /** Joining two sequences without repetitions and without common elements
      gives a sequence without repetitions. */
  lemma NoDuplicatesAppend<T>(a: seq<T>, b: seq<T>)
    requires NoDuplicates(a) && NoDuplicates(b)
    requires forall x :: x in a ==> x !in b
    ensures NoDuplicates(a + b)
  {
    forall i, j | 0 <= i < j < |a + b|
      ensures (a + b)[i] != (a + b)[j]
    {
      if j < |a| {
        assert (a + b)[i] == a[i] && (a + b)[j] == a[j];
      } else if i < |a| {
        assert (a + b)[i] == a[i] && a[i] in a;
        assert (a + b)[j] == b[j - |a|] && b[j - |a|] in b;
      } else {
        assert (a + b)[i] == b[i - |a|] && (a + b)[j] == b[j - |a|];
      }
    }
  }

  /** Concatenation of a sequence of sequences. */
  function Concat<T>(ss: seq<seq<T>>): seq<T>
  {
    if |ss| == 0 then [] else ss[0] + Concat(ss[1..])
  }
}
