/**
 * `std::map<std::string, V>` as the source uses it: built once from an
 * initializer list and then searched by key (`contains`, `at`) or walked in
 * ascending key order (range-for).
 *
 * A map is the sequence of its entries in iteration order. Building one from an
 * initializer list inserts the elements front to back, and an element whose key
 * is already present is dropped, so the first occurrence of a key wins.
 */
module StdMap {
  import opened Wrappers

  type Entries<V> = seq<(string, V)>

  /** `std::string::operator<`: lexicographic comparison of the characters. */
  predicate Less(a: string, b: string)
  {
    if |a| == 0 then |b| > 0
    else |b| > 0 && (a[0] < b[0] || (a[0] == b[0] && Less(a[1..], b[1..])))
  }

  lemma {:induction false} LessIrreflexive(a: string)
    ensures !Less(a, a)
  {
    if |a| > 0 {
      LessIrreflexive(a[1..]);
    }
  }

  lemma {:induction false} LessTransitive(a: string, b: string, c: string)
    requires Less(a, b) && Less(b, c)
    ensures Less(a, c)
  {
    if |a| > 0 && a[0] == b[0] && b[0] == c[0] {
      LessTransitive(a[1..], b[1..], c[1..]);
    }
  }

  lemma {:induction false} LessTotal(a: string, b: string)
    ensures a == b || Less(a, b) || Less(b, a)
  {
    if |a| > 0 && |b| > 0 && a[0] == b[0] {
      LessTotal(a[1..], b[1..]);
      if a[1..] == b[1..] {
        assert a == [a[0]] + a[1..] && b == [b[0]] + b[1..];
      }
    }
  }

  /** Entries in strictly ascending key order. */
  predicate Ordered<V>(m: Entries<V>)
  {
    forall i, j :: 0 <= i < j < |m| ==> Less(m[i].0, m[j].0)
  }

  /** An ordered map holds each key once. */
  lemma OrderedKeysDistinct<V>(m: Entries<V>, i: int, j: int)
    requires Ordered(m) && 0 <= i < |m| && 0 <= j < |m| && i != j
    ensures m[i].0 != m[j].0
  {
    if i < j {
      LessIrreflexive(m[i].0);
    } else {
      LessIrreflexive(m[j].0);
    }
  }

  /**
   * The value stored under key `k` by the first entry that has it. On a map this
   * is `find`/`at`; on an initializer list it is the value of the first
   * occurrence of `k`.
   */
  function Find<V>(m: Entries<V>, k: string): (r: Option<V>)
    ensures r.Some? <==> exists i :: 0 <= i < |m| && m[i].0 == k
    ensures r.Some? ==> exists i :: 0 <= i < |m| && m[i] == (k, r.value)
  {
    if m == [] then None
    else if m[0].0 == k then Some(m[0].1)
    else
      var r := Find(m[1..], k);
      assert forall i :: 1 <= i < |m| ==> m[i] == m[1..][i - 1];
      r
  }

  /** `contains(k)`. */
  predicate Contains<V>(m: Entries<V>, k: string)
  {
    Find(m, k).Some?
  }

  lemma FindCons<V>(x: (string, V), rest: Entries<V>, k: string)
    ensures Find([x] + rest, k) == if x.0 == k then Some(x.1) else Find(rest, k)
  {
    assert ([x] + rest)[1..] == rest;
  }

  /** `Find` returns the value of the first entry with the key. */
  lemma {:induction false} FindFirst<V>(m: Entries<V>, k: string, i: int)
    requires 0 <= i < |m| && m[i].0 == k
    requires forall j :: 0 <= j < i ==> m[j].0 != k
    ensures Find(m, k) == Some(m[i].1)
  {
    if i > 0 {
      FindFirst(m[1..], k, i - 1);
    }
  }

  /** An entry whose key is below every key of an ordered map can go in front. */
  lemma ConsOrdered<V>(x: (string, V), rest: Entries<V>)
    requires Ordered(rest) && forall j :: 0 <= j < |rest| ==> Less(x.0, rest[j].0)
    ensures Ordered([x] + rest)
  {}

  /** The first key of an ordered map is below all the others. */
  lemma HeadLeast<V>(m: Entries<V>, k: string)
    requires Ordered(m) && |m| > 0 && Less(k, m[0].0)
    ensures forall j :: 0 <= j < |m| ==> Less(k, m[j].0)
    ensures !Contains(m, k)
  {
    forall j | 0 < j < |m|
      ensures Less(k, m[j].0)
    {
      LessTransitive(k, m[0].0, m[j].0);
    }
    LessIrreflexive(k);
  }

  /** `insert({k, v})`: a key already present keeps its entry. */
  function Insert<V>(m: Entries<V>, k: string, v: V): (r: Entries<V>)
    requires Ordered(m)
    ensures Ordered(r)
    ensures Contains(m, k) ==> r == m
    ensures !Contains(m, k) ==> forall k' :: Find(r, k') == if k' == k then Some(v) else Find(m, k')
    ensures forall i :: 0 <= i < |r| ==> r[i] == (k, v) || r[i] in m
  {
    if m == [] then [(k, v)]
    else if m[0].0 == k then m
    else if Less(k, m[0].0) then
      HeadLeast(m, k);
      ConsOrdered((k, v), m);
      assert forall k' :: Find([(k, v)] + m, k') == if k' == k then Some(v) else Find(m, k') by {
        forall k' {
          FindCons((k, v), m, k');
        }
      }
      [(k, v)] + m
    else
      LessTotal(k, m[0].0);
      var tail := m[1..];
      assert m == [m[0]] + tail;
      var rest := Insert(tail, k, v);
      assert forall j :: 0 <= j < |rest| ==> Less(m[0].0, rest[j].0) by {
        forall j | 0 <= j < |rest|
          ensures Less(m[0].0, rest[j].0)
        {
          if rest[j] in tail {
            var p :| 0 <= p < |tail| && tail[p] == rest[j];
            assert tail[p] == m[p + 1];
          }
        }
      }
      ConsOrdered(m[0], rest);
      assert forall k' :: Find(m, k') == if m[0].0 == k' then Some(m[0].1) else Find(tail, k') by {
        forall k' {
          FindCons(m[0], tail, k');
        }
      }
      assert forall k' :: Find([m[0]] + rest, k') == if m[0].0 == k' then Some(m[0].1) else Find(rest, k') by {
        forall k' {
          FindCons(m[0], rest, k');
        }
      }
      [m[0]] + rest
  }

  /** A map built from its initializer list, as `std::map{...}` does. */
  function FromList<V>(init: Entries<V>): (m: Entries<V>)
    ensures Ordered(m)
    decreases |init|
  {
    if init == [] then []
    else
      var last := init[|init| - 1];
      Insert(FromList(init[..|init| - 1]), last.0, last.1)
  }

  lemma {:induction false} FindAppend<V>(s: Entries<V>, x: (string, V), k: string)
    ensures Find(s + [x], k) == if Find(s, k).Some? then Find(s, k) else if x.0 == k then Some(x.1) else None
  {
    if s != [] {
      assert (s + [x])[1..] == s[1..] + [x];
      FindAppend(s[1..], x, k);
    }
  }

  /** Looking a key up in the built map finds the value of its first occurrence in the list. */
  lemma {:induction false} FromListFind<V>(init: Entries<V>, k: string)
    ensures Find(FromList(init), k) == Find(init, k)
    decreases |init|
  {
    if init != [] {
      var pre := init[..|init| - 1];
      var last := init[|init| - 1];
      assert init == pre + [last];
      FromListFind(pre, k);
      FromListFind(pre, last.0);
      FindAppend(pre, last, k);
    }
  }

  /** Every entry of the built map is an element of its initializer list. */
  lemma {:induction false} FromListEntries<V>(init: Entries<V>)
    ensures forall i :: 0 <= i < |FromList(init)| ==> FromList(init)[i] in init
    decreases |init|
  {
    if init != [] {
      var pre := init[..|init| - 1];
      FromListEntries(pre);
      assert forall e :: e in pre ==> e in init;
    }
  }
}
