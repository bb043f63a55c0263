/**
 * Insertion-ordered sets, the semantics of a JavaScript `Set` read back with
 * `Array.from`: adding a value already present changes nothing, and values
 * come out in the order they were first added.
 */
module OrderedSets {

  /** The values of a sequence, forgetting order and multiplicity. */
  ghost function Elements<T>(s: seq<T>): set<T>
  {
    set x | x in s
  }

  /** No value occurs twice. */
  ghost predicate Distinct<T>(s: seq<T>)
  {
    forall i, j :: 0 <= i < j < |s| ==> s[i] != s[j]
  }

  /** The position of the first occurrence of `x` in `s`. */
  function FirstIndex<T(==)>(s: seq<T>, x: T): (k: nat)
    requires x in s
    ensures k < |s| && s[k] == x && x !in s[..k]
  {
    if s[0] == x then 0 else 1 + FirstIndex(s[1..], x)
  }

  /** Every value of `r` comes from `s`, and `r` lists them in the order of
      their first occurrences in `s`. */
  ghost predicate InFirstOccurrenceOrder<T>(r: seq<T>, s: seq<T>)
  {
    && (forall i :: 0 <= i < |r| ==> r[i] in s)
    && (forall i, j :: 0 <= i < j < |r| ==> FirstIndex(s, r[i]) < FirstIndex(s, r[j]))
  }

  /** `Set.prototype.add`: a value not yet present goes to the end. */
  function Add<T(==)>(acc: seq<T>, x: T): (r: seq<T>)
    ensures Distinct(acc) ==> Distinct(r)
    ensures Elements(r) == Elements(acc) + {x}
    ensures |acc| <= |r| && r[..|acc|] == acc
  {
    if x in acc then acc else acc + [x]
  }

  /** Adding the values of `xs` one after the other, left to right. */
  function AddAll<T(==)>(acc: seq<T>, xs: seq<T>): (r: seq<T>)
    ensures Distinct(acc) ==> Distinct(r)
    ensures Elements(r) == Elements(acc) + Elements(xs)
    ensures |acc| <= |r| && r[..|acc|] == acc
    decreases |xs|
  {
    if |xs| == 0 then acc
    else Add(AddAll(acc, xs[..|xs| - 1]), xs[|xs| - 1])
  }

  /** `Array.from(new Set(s))`. */
  function Dedup<T(==)>(s: seq<T>): seq<T>
  {
    AddAll([], s)
  }

  /** Adding one more value after a batch. */
  lemma AddAllSnoc<T>(acc: seq<T>, xs: seq<T>, x: T)
    ensures AddAll(acc, xs + [x]) == Add(AddAll(acc, xs), x)
  {
    var s := xs + [x];
    assert s[..|s| - 1] == xs;
  }

  /** Adding two batches in turn is adding their concatenation. */
  lemma {:induction false} AddAllAppend<T>(acc: seq<T>, a: seq<T>, b: seq<T>)
    ensures AddAll(AddAll(acc, a), b) == AddAll(acc, a + b)
    decreases |b|
  {
    if |b| == 0 {
      assert a + b == a;
    } else {
      var init, x := b[..|b| - 1], b[|b| - 1];
      assert b == init + [x];
      assert a + b == (a + init) + [x];
      AddAllAppend(acc, a, init);
      AddAllSnoc(acc, a + init, x);
      AddAllSnoc(AddAll(acc, a), init, x);
    }
  }

  /** Appending a value does not move the first occurrence of an earlier one. */
  lemma {:induction false} FirstIndexExtend<T>(s: seq<T>, x: T, y: T)
    requires y in s
    ensures FirstIndex(s + [x], y) == FirstIndex(s, y)
  {
    if s[0] != y {
      assert (s + [x])[1..] == s[1..] + [x];
      FirstIndexExtend(s[1..], x, y);
    }
  }

  /** The first occurrence of a value that was absent is the appended one. */
  lemma {:induction false} FirstIndexFresh<T>(s: seq<T>, x: T)
    requires x !in s
    ensures FirstIndex(s + [x], x) == |s|
  {
    if |s| > 0 {
      assert (s + [x])[1..] == s[1..] + [x];
      FirstIndexFresh(s[1..], x);
    }
  }

  /** Appending to the source keeps an order that held before. */
  lemma OrderExtend<T>(d: seq<T>, s: seq<T>, x: T)
    requires InFirstOccurrenceOrder(d, s)
    ensures InFirstOccurrenceOrder(d, s + [x])
  {
    forall i | 0 <= i < |d|
      ensures FirstIndex(s + [x], d[i]) == FirstIndex(s, d[i])
    {
      FirstIndexExtend(s, x, d[i]);
    }
  }

  /** A value new to the source goes last in first-occurrence order. */
  lemma OrderAppendFresh<T>(d: seq<T>, s: seq<T>, x: T)
    requires InFirstOccurrenceOrder(d, s) && x !in s
    ensures InFirstOccurrenceOrder(d + [x], s + [x])
  {
    OrderExtend(d, s, x);
    FirstIndexFresh(s, x);
    var r := d + [x];
    forall i | 0 <= i < |d|
      ensures FirstIndex(s + [x], r[i]) < FirstIndex(s + [x], x)
    {
      assert r[i] == d[i] && d[i] in s;
      FirstIndexExtend(s, x, d[i]);
    }
    forall i, j | 0 <= i < j < |r|
      ensures FirstIndex(s + [x], r[i]) < FirstIndex(s + [x], r[j])
    {
      if j == |d| {
        assert r[j] == x;
      } else {
        assert r[i] == d[i] && r[j] == d[j];
      }
    }
  }

  /** The deduplicated sequence lists its values in first-occurrence order. */
  lemma {:induction false} DedupOrder<T>(s: seq<T>)
    ensures InFirstOccurrenceOrder(Dedup(s), s)
    decreases |s|
  {
    if |s| > 0 {
      var init, x := s[..|s| - 1], s[|s| - 1];
      assert s == init + [x];
      DedupOrder(init);
      var d := Dedup(init);
      AddAllSnoc([], init, x);
      if x in d {
        OrderExtend(d, init, x);
      } else {
        assert x !in Elements(init);
        OrderAppendFresh(d, init, x);
      }
    }
  }

  /** The deduplicated sequence has no repeats, the same values as its input,
      and lists them in first-occurrence order. */
  lemma DedupSpec<T>(s: seq<T>)
    ensures Distinct(Dedup(s))
    ensures Elements(Dedup(s)) == Elements(s)
    ensures InFirstOccurrenceOrder(Dedup(s), s)
  {
    EmptyElements<T>([]);
    DedupOrder(s);
  }

  /** As a set, the outcome does not depend on the order of the input. */
  lemma DedupOrderInsensitive<T>(a: seq<T>, b: seq<T>)
    requires multiset(a) == multiset(b)
    ensures Elements(Dedup(a)) == Elements(Dedup(b))
  {
    forall x ensures x in a <==> x in b {
      assert x in a <==> x in multiset(a);
      assert x in b <==> x in multiset(b);
    }
  }

  /** Only the empty sequence has no values. */
  lemma EmptyElements<T>(s: seq<T>)
    ensures Elements(s) == {} <==> |s| == 0
  {
    if |s| > 0 {
      assert s[0] in Elements(s);
    }
  }

  /** Two non-empty sequences over the same values, both in first-occurrence
      order of `s`, start with the same value and agree on the rest. */
  lemma SameHead<T>(a: seq<T>, b: seq<T>, s: seq<T>)
    requires |a| > 0 && |b| > 0 && Elements(a) == Elements(b)
    requires InFirstOccurrenceOrder(a, s) && InFirstOccurrenceOrder(b, s)
    ensures a[0] == b[0]
    ensures Elements(a[1..]) == Elements(b[1..])
  {
    assert a[0] in Elements(b) && b[0] in Elements(a);
    var i :| 0 <= i < |a| && a[i] == b[0];
    var j :| 0 <= j < |b| && b[j] == a[0];
    assert FirstIndex(s, a[0]) <= FirstIndex(s, a[i]);
    assert FirstIndex(s, b[0]) <= FirstIndex(s, b[j]);
    assert a[0] == s[FirstIndex(s, a[0])] == b[0];
    forall x | x in a[1..] ensures x in b[1..] {
      var k :| 1 <= k < |a| && a[k] == x;
      assert x != a[0] && x in Elements(b);
    }
    forall x | x in b[1..] ensures x in a[1..] {
      var k :| 1 <= k < |b| && b[k] == x;
      assert x != b[0] && x in Elements(a);
    }
  }

  /** Two sequences over the same values, both in first-occurrence order of
      `s`, are the same sequence. */
  lemma {:induction false} FirstOccurrenceOrderUnique<T>(a: seq<T>, b: seq<T>, s: seq<T>)
    requires Elements(a) == Elements(b)
    requires InFirstOccurrenceOrder(a, s) && InFirstOccurrenceOrder(b, s)
    ensures a == b
    decreases |a|
  {
    EmptyElements(a);
    EmptyElements(b);
    if |a| > 0 {
      SameHead(a, b, s);
      FirstOccurrenceOrderUnique(a[1..], b[1..], s);
      assert a == [a[0]] + a[1..];
      assert b == [b[0]] + b[1..];
    }
  }

  /** The three properties of `DedupSpec` pin the result down completely:
      any sequence over the values of `s` in first-occurrence order is the
      deduplicated one. */
  lemma DedupUnique<T>(r: seq<T>, s: seq<T>)
    requires Elements(r) == Elements(s) && InFirstOccurrenceOrder(r, s)
    ensures r == Dedup(s)
  {
    DedupSpec(s);
    FirstOccurrenceOrderUnique(r, Dedup(s), s);
  }
}
