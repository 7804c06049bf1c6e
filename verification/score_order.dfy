/**
 The ranking every selection script applies: `entries.sort(key=lambda x: (x[0] != 0, -x[0]))`
 on entries carrying a vote score. Python compares the key tuples left to right with
 `False < True`, so entries scoring 0 come first, then the others by descending score. The
 sort is stable: entries with equal scores keep their input order.
 */
module ScoreOrder {

  /** Python's `<=` on `(bool, int)` tuples, `False` before `True`. */
  predicate TupleLe(a: (bool, int), b: (bool, int)) {
    (!a.0 && b.0) || (a.0 == b.0 && a.1 <= b.1)
  }

  /** `key(a) <= key(b)` for the key `(score != 0, -score)`. */
  predicate KeyLe(a: int, b: int) {
    a == 0 || (b != 0 && a >= b)
  }

  /** The short form agrees with the tuple comparison it stands for. */
  lemma KeyLeIsTupleOrder(a: int, b: int)
    ensures KeyLe(a, b) <==> TupleLe((a != 0, -a), (b != 0, -b))
  {
  }

  lemma KeyLeTotal(a: int, b: int)
    ensures KeyLe(a, b) || KeyLe(b, a)
  {
  }

  /** Every earlier entry's key is at most every later one's. */
  predicate SortedBy<T>(xs: seq<T>, score: T -> int) {
    forall i, j :: 0 <= i < j < |xs| ==> KeyLe(score(xs[i]), score(xs[j]))
  }

  /** The entries scoring exactly `v`, in order. */
  function WithScore<T>(xs: seq<T>, score: T -> int, v: int): seq<T> {
    if xs == [] then []
    else (if score(xs[0]) == v then [xs[0]] else []) + WithScore(xs[1..], score, v)
  }

  /** Puts `x` in front of the first entry whose key is not smaller than its own. */
  function Insert<T>(x: T, ys: seq<T>, score: T -> int): seq<T> {
    if ys == [] then [x]
    else if KeyLe(score(x), score(ys[0])) then [x] + ys
    else [ys[0]] + Insert(x, ys[1..], score)
  }

  lemma {:induction false} InsertSorted<T>(x: T, ys: seq<T>, score: T -> int)
    requires SortedBy(ys, score)
    ensures SortedBy(Insert(x, ys, score), score)
    ensures |Insert(x, ys, score)| == |ys| + 1
    ensures forall i :: 0 <= i < |Insert(x, ys, score)| ==> Insert(x, ys, score)[i] == x || Insert(x, ys, score)[i] in ys
  {
    if ys != [] && !KeyLe(score(x), score(ys[0])) {
      var rest := ys[1..];
      assert SortedBy(rest, score) by {
        forall i, j | 0 <= i < j < |rest| ensures KeyLe(score(rest[i]), score(rest[j])) {
          assert rest[i] == ys[i + 1] && rest[j] == ys[j + 1];
        }
      }
      InsertSorted(x, rest, score);
      var r := Insert(x, rest, score);
      forall i | 0 <= i < |r| ensures KeyLe(score(ys[0]), score(r[i])) {
        if r[i] == x {
          KeyLeTotal(score(x), score(ys[0]));
        } else {
          var k :| 0 <= k < |rest| && rest[k] == r[i];
          assert rest[k] == ys[k + 1];
        }
      }
      forall i | 0 <= i < |r| ensures r[i] == x || r[i] in ys {
        if r[i] != x {
          assert r[i] in rest;
        }
      }
    } else if ys != [] {
      forall j | 0 <= j < |ys| ensures KeyLe(score(x), score(ys[j])) {
        KeyLeTrans(score(x), score(ys[0]), score(ys[j]));
      }
    }
  }

  lemma KeyLeTrans(a: int, b: int, c: int)
    requires KeyLe(a, b) && KeyLe(b, c)
    ensures KeyLe(a, c)
  {
  }

  lemma {:induction false} InsertMultiset<T>(x: T, ys: seq<T>, score: T -> int)
    ensures multiset(Insert(x, ys, score)) == multiset(ys) + multiset{x}
  {
    if ys != [] && !KeyLe(score(x), score(ys[0])) {
      InsertMultiset(x, ys[1..], score);
      assert ys == [ys[0]] + ys[1..];
    }
  }

  /** Inserting `x` only adds `x` to the entries of its own score, at their front. */
  lemma {:induction false} InsertWithScore<T>(x: T, ys: seq<T>, score: T -> int, v: int)
    ensures WithScore(Insert(x, ys, score), score, v)
         == (if score(x) == v then [x] else []) + WithScore(ys, score, v)
  {
    if ys != [] && !KeyLe(score(x), score(ys[0])) {
      InsertWithScore(x, ys[1..], score, v);
      var r := Insert(x, ys, score);
      assert r[0] == ys[0] && r[1..] == Insert(x, ys[1..], score);
      assert score(ys[0]) != score(x);
    } else if ys != [] {
      var r := Insert(x, ys, score);
      assert r[1..] == ys;
    }
  }

  /**
   `sorted(xs, key=lambda x: (x.score != 0, -x.score))`: ordered by the key, a rearrangement
   of the input, and stable (for every score, the entries with that score keep their order).
   */
  function SortByScore<T>(xs: seq<T>, score: T -> int): (r: seq<T>)
    ensures SortedBy(r, score)
    ensures multiset(r) == multiset(xs)
    ensures forall v :: WithScore(r, score, v) == WithScore(xs, score, v)
  {
    if xs == [] then []
    else
      var s := SortByScore(xs[1..], score);
      InsertSorted(xs[0], s, score);
      InsertMultiset(xs[0], s, score);
      forall v ensures WithScore(Insert(xs[0], s, score), score, v) == WithScore(xs, score, v) {
        InsertWithScore(xs[0], s, score, v);
      }
      assert xs == [xs[0]] + xs[1..];
      Insert(xs[0], s, score)
  }
}
