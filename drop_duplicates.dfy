/** The table operation both catalog merges rest on: pandas'
    `drop_duplicates(subset=...)` with its default `keep="first"`. A row is
    kept exactly when no earlier row carries the same key; kept rows stay in
    their original order. The key is a function of the row, so the same
    definition serves the `(title, url)` and the `title` subsets. */
module DropDuplicates {

  /** The set of keys carried by the rows of `xs`. */
  ghost function KeySet<T, K>(xs: seq<T>, key: T -> K): set<K>
  {
    set x | x in xs :: key(x)
  }

  /** No two rows of `xs` carry the same key. */
  ghost predicate KeysUnique<T, K>(xs: seq<T>, key: T -> K)
  {
    forall i, j :: 0 <= i < j < |xs| ==> key(xs[i]) != key(xs[j])
  }

  /** Row `i` is the first row of `xs` that carries its key. */
  ghost predicate IsFirstOccurrence<T, K>(xs: seq<T>, key: T -> K, i: int)
    requires 0 <= i < |xs|
  {
    forall j :: 0 <= j < i ==> key(xs[j]) != key(xs[i])
  }

  /** `s` is obtained from `t` by deleting rows (order kept). */
  ghost predicate IsSubsequence<T>(s: seq<T>, t: seq<T>)
    decreases |t|
  {
    s == [] || (t != [] && ((s[0] == t[0] && IsSubsequence(s[1..], t[1..])) || IsSubsequence(s, t[1..])))
  }

  /** The position of the first row of `xs` that carries key `k`. */
  ghost function FirstIndex<T, K>(xs: seq<T>, key: T -> K, k: K): (i: nat)
    requires k in KeySet(xs, key)
    ensures i < |xs| && key(xs[i]) == k && IsFirstOccurrence(xs, key, i)
    decreases |xs|
  {
    assert xs != [];
    assert xs == [xs[0]] + xs[1..];
    KeySetCons(xs[0], xs[1..], key);
    if key(xs[0]) == k then 0
    else
      var j := FirstIndex(xs[1..], key, k);
      assert forall m :: 0 < m < |xs| ==> xs[m] == xs[1..][m - 1];
      1 + j
  }

  /** What "keep the first row of every key" promises of a result `r` drawn
      from `xs`: rows are only deleted, never reordered; no key repeats; no
      key is lost; the row kept for a key is the first one; and the kept
      rows come in the order of their keys' first occurrences. */
  ghost predicate DeduplicatedFrom<T, K>(r: seq<T>, xs: seq<T>, key: T -> K)
  {
    && IsSubsequence(r, xs)
    && KeysUnique(r, key)
    && KeySet(r, key) == KeySet(xs, key)
    && (forall i :: 0 <= i < |xs| && IsFirstOccurrence(xs, key, i) ==> xs[i] in r)
    && (forall p :: 0 <= p < |r| ==>
          key(r[p]) in KeySet(xs, key) && r[p] == xs[FirstIndex(xs, key, key(r[p]))])
    && (forall p, q :: 0 <= p < q < |r| ==>
          FirstIndex(xs, key, key(r[p])) < FirstIndex(xs, key, key(r[q])))
  }

  /** Scan `xs` left to right, keeping a row only if its key is not in `seen`
      yet, and adding the key of every kept row to `seen`. */
  function DedupFrom<T, K(==)>(xs: seq<T>, key: T -> K, seen: set<K>): seq<T>
    decreases |xs|
  {
    if xs == [] then []
    else if key(xs[0]) in seen then DedupFrom(xs[1..], key, seen)
    else [xs[0]] + DedupFrom(xs[1..], key, seen + {key(xs[0])})
  }

  /** `drop_duplicates(subset=key, keep="first")`. */
  function Dedup<T, K(==)>(xs: seq<T>, key: T -> K): seq<T>
  {
    DedupFrom(xs, key, {})
  }

  lemma KeySetCons<T, K>(x: T, xs: seq<T>, key: T -> K)
    ensures KeySet([x] + xs, key) == {key(x)} + KeySet(xs, key)
  {
    var l, r := KeySet([x] + xs, key), {key(x)} + KeySet(xs, key);
    forall k | k in l ensures k in r {
      var y :| y in [x] + xs && key(y) == k;
      if y != x { assert y in xs; }
    }
    forall k | k in r ensures k in l {
      if k != key(x) {
        var y :| y in xs && key(y) == k;
        assert y in [x] + xs;
      } else {
        assert x in [x] + xs;
      }
    }
  }

  lemma {:induction false} SubsequenceMembers<T>(s: seq<T>, t: seq<T>)
    requires IsSubsequence(s, t)
    ensures forall x :: x in s ==> x in t
    decreases |t|
  {
    if s != [] {
      if s[0] == t[0] && IsSubsequence(s[1..], t[1..]) {
        SubsequenceMembers(s[1..], t[1..]);
        forall x | x in s ensures x in t {
          if x != s[0] { assert x in s[1..]; assert x in t[1..]; }
        }
      } else {
        SubsequenceMembers(s, t[1..]);
        forall x | x in s ensures x in t { assert x in t[1..]; }
      }
    }
  }

  /** The scan keeps a subsequence with unique keys, loses no key outside
      `seen`, and keeps every first occurrence of a key outside `seen`. */
  lemma {:induction false} DedupFromProperties<T, K>(xs: seq<T>, key: T -> K, seen: set<K>)
    ensures IsSubsequence(DedupFrom(xs, key, seen), xs)
    ensures KeysUnique(DedupFrom(xs, key, seen), key)
    ensures KeySet(DedupFrom(xs, key, seen), key) == KeySet(xs, key) - seen
    ensures forall i :: 0 <= i < |xs| && key(xs[i]) !in seen && IsFirstOccurrence(xs, key, i) ==>
              xs[i] in DedupFrom(xs, key, seen)
    decreases |xs|
  {
    if xs != [] {
      var x, rest := xs[0], xs[1..];
      assert xs == [x] + rest;
      KeySetCons(x, rest, key);
      var r := DedupFrom(xs, key, seen);
      if key(x) in seen {
        DedupFromProperties(rest, key, seen);
        assert r == DedupFrom(rest, key, seen);
        forall i | 0 <= i < |xs| && key(xs[i]) !in seen && IsFirstOccurrence(xs, key, i)
          ensures xs[i] in r
        {
          assert i > 0;
          assert xs[i] == rest[i - 1];
          assert IsFirstOccurrence(rest, key, i - 1) by {
            forall j | 0 <= j < i - 1 ensures key(rest[j]) != key(rest[i - 1]) {
              assert rest[j] == xs[j + 1];
            }
          }
        }
      } else {
        var seen' := seen + {key(x)};
        DedupFromProperties(rest, key, seen');
        var r' := DedupFrom(rest, key, seen');
        assert r == [x] + r';
        assert r[1..] == r';
        KeySetCons(x, r', key);
        assert KeysUnique(r, key) by {
          forall i, j | 0 <= i < j < |r| ensures key(r[i]) != key(r[j]) {
            if i == 0 {
              assert r[j] == r'[j - 1];
              assert r'[j - 1] in r';
              assert key(r'[j - 1]) in KeySet(r', key);
            } else {
              assert r[i] == r'[i - 1] && r[j] == r'[j - 1];
            }
          }
        }
        forall i | 0 <= i < |xs| && key(xs[i]) !in seen && IsFirstOccurrence(xs, key, i)
          ensures xs[i] in r
        {
          if i > 0 {
            assert xs[i] == rest[i - 1];
            assert key(xs[0]) != key(xs[i]);
            assert IsFirstOccurrence(rest, key, i - 1) by {
              forall j | 0 <= j < i - 1 ensures key(rest[j]) != key(rest[i - 1]) {
                assert rest[j] == xs[j + 1];
              }
            }
            assert xs[i] in r';
          }
        }
      }
    }
  }

  lemma FirstIndexTail<T, K>(xs: seq<T>, key: T -> K, k: K)
    requires k in KeySet(xs, key) && k != key(xs[0])
    ensures k in KeySet(xs[1..], key) && FirstIndex(xs, key, k) == 1 + FirstIndex(xs[1..], key, k)
  {
    assert xs == [xs[0]] + xs[1..];
    KeySetCons(xs[0], xs[1..], key);
  }

  /** The keys the scan keeps from the rest of `xs` differ from the key of
      its first row when that key is seen, and their first positions in `xs`
      are one past their first positions in the rest. */
  lemma KeptFromRest<T, K>(xs: seq<T>, key: T -> K, seen': set<K>)
    requires xs != [] && key(xs[0]) in seen'
    ensures forall p :: 0 <= p < |DedupFrom(xs[1..], key, seen')| ==>
              var k := key(DedupFrom(xs[1..], key, seen')[p]);
              k != key(xs[0]) && k in KeySet(xs, key) && k in KeySet(xs[1..], key) &&
              FirstIndex(xs, key, k) == 1 + FirstIndex(xs[1..], key, k)
  {
    var r' := DedupFrom(xs[1..], key, seen');
    DedupFromProperties(xs[1..], key, seen');
    assert xs == [xs[0]] + xs[1..];
    KeySetCons(xs[0], xs[1..], key);
    forall p | 0 <= p < |r'|
      ensures key(r'[p]) != key(xs[0]) && key(r'[p]) in KeySet(xs, key) && key(r'[p]) in KeySet(xs[1..], key)
      ensures FirstIndex(xs, key, key(r'[p])) == 1 + FirstIndex(xs[1..], key, key(r'[p]))
    {
      assert r'[p] in r';
      assert key(r'[p]) in KeySet(r', key);
      FirstIndexTail(xs, key, key(r'[p]));
    }
  }

  /** Every row the scan keeps is the first row of `xs` with its key, and the
      kept rows come in the order of those first rows. */
  lemma {:induction false} DedupFromOrder<T, K>(xs: seq<T>, key: T -> K, seen: set<K>)
    ensures forall p :: 0 <= p < |DedupFrom(xs, key, seen)| ==>
              var k := key(DedupFrom(xs, key, seen)[p]);
              k in KeySet(xs, key) && DedupFrom(xs, key, seen)[p] == xs[FirstIndex(xs, key, k)]
    ensures forall p, q :: 0 <= p < q < |DedupFrom(xs, key, seen)| ==>
              key(DedupFrom(xs, key, seen)[p]) in KeySet(xs, key) &&
              key(DedupFrom(xs, key, seen)[q]) in KeySet(xs, key) &&
              FirstIndex(xs, key, key(DedupFrom(xs, key, seen)[p])) <
              FirstIndex(xs, key, key(DedupFrom(xs, key, seen)[q]))
    decreases |xs|
  {
    if xs != [] {
      var x, rest := xs[0], xs[1..];
      var r := DedupFrom(xs, key, seen);
      var seen' := if key(x) in seen then seen else seen + {key(x)};
      DedupFromOrder(rest, key, seen');
      KeptFromRest(xs, key, seen');
      var r' := DedupFrom(rest, key, seen');
      assert forall j :: 0 <= j < |rest| ==> rest[j] == xs[j + 1];
      if key(x) in seen {
        assert r == r';
      } else {
        assert r == [x] + r';
        assert x in xs;
        assert FirstIndex(xs, key, key(x)) == 0;
        assert forall p :: 0 < p < |r| ==> r[p] == r'[p - 1];
      }
    }
  }

  /** The promises of `drop_duplicates(keep="first")` hold of `Dedup`. */
  lemma DedupIsDeduplicated<T, K>(xs: seq<T>, key: T -> K)
    ensures DeduplicatedFrom(Dedup(xs, key), xs, key)
  {
    DedupFromProperties(xs, key, {});
    DedupFromOrder(xs, key, {});
  }

  /** Scanning a concatenation is scanning the first part, then scanning the
      second part with every key of the first part already seen. */
  lemma {:induction false} DedupFromAppend<T, K>(xs: seq<T>, ys: seq<T>, key: T -> K, seen: set<K>)
    ensures DedupFrom(xs + ys, key, seen) == DedupFrom(xs, key, seen) + DedupFrom(ys, key, seen + KeySet(xs, key))
    decreases |xs|
  {
    if xs == [] {
      assert xs + ys == ys;
      assert KeySet(xs, key) == {};
      assert seen + KeySet(xs, key) == seen;
    } else {
      var x := xs[0];
      assert (xs + ys)[0] == x;
      assert (xs + ys)[1..] == xs[1..] + ys;
      assert xs == [x] + xs[1..];
      KeySetCons(x, xs[1..], key);
      var seen' := if key(x) in seen then seen else seen + {key(x)};
      DedupFromAppend(xs[1..], ys, key, seen');
      assert seen' + KeySet(xs[1..], key) == seen + KeySet(xs, key);
    }
  }

  /** Rows whose keys have all been seen are all dropped. */
  lemma {:induction false} DedupFromAllSeen<T, K>(ys: seq<T>, key: T -> K, seen: set<K>)
    requires KeySet(ys, key) <= seen
    ensures DedupFrom(ys, key, seen) == []
    decreases |ys|
  {
    if ys != [] {
      assert ys == [ys[0]] + ys[1..];
      KeySetCons(ys[0], ys[1..], key);
      DedupFromAllSeen(ys[1..], key, seen);
    }
  }

  /** Rows whose keys are unique and unseen are all kept. */
  lemma {:induction false} DedupFromKeepsUnique<T, K>(xs: seq<T>, key: T -> K, seen: set<K>)
    requires KeysUnique(xs, key)
    requires KeySet(xs, key) !! seen
    ensures DedupFrom(xs, key, seen) == xs
    decreases |xs|
  {
    if xs != [] {
      var x, rest := xs[0], xs[1..];
      assert xs == [x] + rest;
      KeySetCons(x, rest, key);
      assert KeysUnique(rest, key) by {
        forall i, j | 0 <= i < j < |rest| ensures key(rest[i]) != key(rest[j]) {
          assert rest[i] == xs[i + 1] && rest[j] == xs[j + 1];
        }
      }
      assert key(x) !in KeySet(rest, key) by {
        forall j | 0 <= j < |rest| ensures key(rest[j]) != key(x) {
          assert rest[j] == xs[j + 1];
        }
      }
      DedupFromKeepsUnique(rest, key, seen + {key(x)});
    }
  }

  /** A table is left unchanged by deduplication exactly when its keys are
      already unique. */
  lemma DedupFixedPoint<T, K>(xs: seq<T>, key: T -> K)
    ensures Dedup(xs, key) == xs <==> KeysUnique(xs, key)
  {
    DedupFromProperties(xs, key, {});
    if KeysUnique(xs, key) {
      DedupFromKeepsUnique(xs, key, {});
    }
  }

  /** Deduplicating twice is deduplicating once. */
  lemma DedupIdempotent<T, K>(xs: seq<T>, key: T -> K)
    ensures Dedup(Dedup(xs, key), key) == Dedup(xs, key)
  {
    DedupFromProperties(xs, key, {});
    DedupFromKeepsUnique(Dedup(xs, key), key, {});
  }

  /** Appending rows whose keys all occur already changes nothing. */
  lemma DedupAbsorbs<T, K>(xs: seq<T>, ys: seq<T>, key: T -> K)
    requires KeySet(ys, key) <= KeySet(xs, key)
    ensures Dedup(xs + ys, key) == Dedup(xs, key)
  {
    DedupFromAppend(xs, ys, key, {});
    assert {} + KeySet(xs, key) == KeySet(xs, key);
    DedupFromAllSeen(ys, key, KeySet(xs, key));
  }

  /** On a key collision between the first part and the second part of a
      concatenation, the row of the first part is the one kept. */
  lemma FirstPartWins<T, K>(xs: seq<T>, ys: seq<T>, key: T -> K)
    ensures forall b :: b in Dedup(xs + ys, key) && key(b) in KeySet(xs, key) ==> b in xs
  {
    DedupFromAppend(xs, ys, key, {});
    assert {} + KeySet(xs, key) == KeySet(xs, key);
    var front, back := Dedup(xs, key), DedupFrom(ys, key, KeySet(xs, key));
    DedupFromProperties(xs, key, {});
    SubsequenceMembers(front, xs);
    DedupFromProperties(ys, key, KeySet(xs, key));
    forall b | b in back ensures key(b) in KeySet(back, key) {
    }
  }
}
