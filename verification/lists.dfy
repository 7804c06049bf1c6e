/**
 The list shapes the dataset-selection scripts share: keeping the entries a test accepts,
 keeping the first entry per speaker (the `used_clients` / `seen_speakers` /
 `entries_by_client` idiom), and stopping after a number of entries.
 */
module Lists {
  import opened Wrappers

  /** The entries of `xs` that pass `p`, in order. */
  function Filter<T(==)>(p: T -> bool, xs: seq<T>): (r: seq<T>)
    ensures |r| <= |xs|
    ensures forall i :: 0 <= i < |r| ==> p(r[i])
    ensures forall x :: x in r ==> x in xs
  {
    if xs == [] then []
    else
      var f := Filter(p, xs[..|xs| - 1]);
      assert xs == xs[..|xs| - 1] + [xs[|xs| - 1]];
      if p(xs[|xs| - 1]) then f + [xs[|xs| - 1]] else f
  }

  /** Filtering a prefix gives a prefix of the filtered list. */
  lemma {:induction false} FilterPrefix<T>(p: T -> bool, xs: seq<T>, k: nat)
    requires k <= |xs|
    ensures IsPrefix(Filter(p, xs[..k]), Filter(p, xs))
    decreases |xs| - k
  {
    if k < |xs| {
      FilterPrefix(p, xs, k + 1);
      var a, b, c := Filter(p, xs[..k]), Filter(p, xs[..k + 1]), Filter(p, xs);
      assert xs[..k + 1] == xs[..k] + [xs[k]];
      FilterSnoc(p, xs[..k], xs[k]);
      PrefixTrans(a, b, c);
    } else {
      assert xs[..k] == xs;
    }
  }

  lemma FilterSnoc<T>(p: T -> bool, xs: seq<T>, x: T)
    ensures Filter(p, xs + [x]) == Filter(p, xs) + (if p(x) then [x] else [])
  {
    assert (xs + [x])[..|xs|] == xs;
  }

  predicate IsPrefix<T(==)>(a: seq<T>, b: seq<T>) {
    |a| <= |b| && b[..|a|] == a
  }

  lemma PrefixTrans<T>(a: seq<T>, b: seq<T>, c: seq<T>)
    requires IsPrefix(a, b) && IsPrefix(b, c)
    ensures IsPrefix(a, c)
  {
    assert c[..|b|][..|a|] == c[..|a|];
  }

  /** The keys occurring in `xs`. */
  function Ids<T(==)>(id: T -> string, xs: seq<T>): set<string> {
    set i | 0 <= i < |xs| :: id(xs[i])
  }

  lemma IdsSnoc<T>(id: T -> string, xs: seq<T>, x: T)
    ensures Ids(id, xs + [x]) == Ids(id, xs) + {id(x)}
  {
    var ys := xs + [x];
    assert forall i :: 0 <= i < |xs| ==> ys[i] == xs[i];
    assert ys[|xs|] == x;
  }

  /** Entries that no earlier entry shares a key with: the first entry per key, in order. */
  function FirstPerKey<T(==)>(id: T -> string, xs: seq<T>): (r: seq<T>)
    ensures Ids(id, r) == Ids(id, xs)
    ensures forall i, j :: 0 <= i < j < |r| ==> id(r[i]) != id(r[j])
    ensures forall x :: x in r ==> x in xs
  {
    if xs == [] then []
    else
      var front, last := xs[..|xs| - 1], xs[|xs| - 1];
      var f := FirstPerKey(id, front);
      assert xs == front + [last];
      IdsSnoc(id, front, last);
      if id(last) in Ids(id, front) then f
      else
        IdsSnoc(id, f, last);
        assert forall i :: 0 <= i < |f| ==> id(f[i]) in Ids(id, f);
        f + [last]
  }

  /** One more entry is kept exactly when its key is new. */
  lemma FirstPerKeySnoc<T>(id: T -> string, xs: seq<T>, x: T)
    ensures FirstPerKey(id, xs + [x])
         == FirstPerKey(id, xs) + (if id(x) in Ids(id, xs) then [] else [x])
  {
    assert (xs + [x])[..|xs|] == xs;
  }

  /** Appending at most one entry: it is kept exactly when no kept entry has its key. */
  lemma FirstPerKeyAppend<T>(id: T -> string, xs: seq<T>, add: seq<T>)
    requires |add| <= 1
    ensures FirstPerKey(id, xs + add)
         == FirstPerKey(id, xs) + (if add != [] && id(add[0]) !in Ids(id, FirstPerKey(id, xs)) then add else [])
  {
    if add == [] {
      assert xs + add == xs;
    } else {
      assert add == [add[0]];
      FirstPerKeySnoc(id, xs, add[0]);
    }
  }

  /** Keeping the first per key of a prefix gives a prefix of the whole result. */
  lemma {:induction false} FirstPerKeyPrefix<T>(id: T -> string, xs: seq<T>, ys: seq<T>)
    requires IsPrefix(xs, ys)
    ensures IsPrefix(FirstPerKey(id, xs), FirstPerKey(id, ys))
    decreases |ys|
  {
    if |xs| < |ys| {
      var front := ys[..|ys| - 1];
      assert IsPrefix(xs, front) by { assert front[..|xs|] == ys[..|xs|]; }
      FirstPerKeyPrefix(id, xs, front);
    } else {
      assert xs == ys;
    }
  }

  /** Distinct keys: the first-per-key list has exactly one entry per key. */
  lemma {:induction false} DistinctCount<T>(id: T -> string, xs: seq<T>)
    requires forall i, j :: 0 <= i < j < |xs| ==> id(xs[i]) != id(xs[j])
    ensures |Ids(id, xs)| == |xs|
    decreases |xs|
  {
    if xs != [] {
      var front := xs[..|xs| - 1];
      DistinctCount(id, front);
      IdsSnoc(id, front, xs[|xs| - 1]);
      assert xs == front + [xs[|xs| - 1]];
      assert id(xs[|xs| - 1]) !in Ids(id, front);
    }
  }

  /** The number of distinct keys equals the length of the first-per-key list. */
  lemma KeyCount<T>(id: T -> string, xs: seq<T>)
    ensures |Ids(id, xs)| == |FirstPerKey(id, xs)|
  {
    DistinctCount(id, FirstPerKey(id, xs));
  }

  /** There are no more keys than entries. */
  lemma {:induction false} IdsSize<T>(id: T -> string, xs: seq<T>)
    ensures |Ids(id, xs)| <= |xs|
    decreases |xs|
  {
    if xs != [] {
      var front := xs[..|xs| - 1];
      IdsSize(id, front);
      assert xs == front + [xs[|xs| - 1]];
      IdsSnoc(id, front, xs[|xs| - 1]);
    }
  }

  /** Everything in `xs` that passes `p` is kept. */
  lemma {:induction false} FilterKeeps<T>(p: T -> bool, xs: seq<T>, x: T)
    requires x in xs && p(x)
    ensures x in Filter(p, xs)
    decreases |xs|
  {
    var front := xs[..|xs| - 1];
    assert xs == front + [xs[|xs| - 1]];
    if x != xs[|xs| - 1] {
      FilterKeeps(p, front, x);
    }
  }

  /** A test that accepts more keeps at least the keys a stricter one keeps. */
  lemma IdsFilterMono<T>(id: T -> string, p: T -> bool, q: T -> bool, xs: seq<T>)
    requires forall x :: p(x) ==> q(x)
    ensures Ids(id, Filter(p, xs)) <= Ids(id, Filter(q, xs))
  {
    var fp, fq := Filter(p, xs), Filter(q, xs);
    forall k | k in Ids(id, fp) ensures k in Ids(id, fq) {
      var i :| 0 <= i < |fp| && id(fp[i]) == k;
      assert fp[i] in fp;
      FilterKeeps(q, xs, fp[i]);
      var j :| 0 <= j < |fq| && fq[j] == fp[i];
    }
  }

  /** The first `n` entries, or all of them when there are fewer. */
  function Take<T(==)>(xs: seq<T>, n: nat): (r: seq<T>)
    ensures |r| == if n <= |xs| then n else |xs|
    ensures IsPrefix(r, xs)
  {
    if n <= |xs| then xs[..n] else xs
  }

  /** The runs of a list of lists, one after the other. */
  function Flatten<T>(gs: seq<seq<T>>): seq<T> {
    if gs == [] then [] else gs[0] + Flatten(gs[1..])
  }

  lemma {:induction false} FlattenAppend<T>(a: seq<seq<T>>, b: seq<seq<T>>)
    ensures Flatten(a + b) == Flatten(a) + Flatten(b)
    decreases |a|
  {
    if a == [] {
      assert a + b == b;
    } else {
      assert (a + b)[0] == a[0];
      assert (a + b)[1..] == a[1..] + b;
      FlattenAppend(a[1..], b);
    }
  }

  /** `[f(x) for x in xs]` */
  function Map<T, U>(f: T -> U, xs: seq<T>): (r: seq<U>)
    ensures |r| == |xs|
  {
    if xs == [] then [] else Map(f, xs[..|xs| - 1]) + [f(xs[|xs| - 1])]
  }

  lemma MapSnoc<T, U>(f: T -> U, xs: seq<T>, x: T)
    ensures Map(f, xs + [x]) == Map(f, xs) + [f(x)]
  {
    assert (xs + [x])[..|xs|] == xs;
  }

  lemma {:induction false} MapAt<T, U>(f: T -> U, xs: seq<T>, i: nat)
    requires i < |xs|
    ensures Map(f, xs)[i] == f(xs[i])
    decreases |xs|
  {
    if i < |xs| - 1 {
      MapAt(f, xs[..|xs| - 1], i);
    }
  }

  lemma {:induction false} MapAppend<T, U>(f: T -> U, a: seq<T>, b: seq<T>)
    ensures Map(f, a + b) == Map(f, a) + Map(f, b)
    decreases |b|
  {
    if b == [] {
      assert a + b == a;
    } else {
      var front := b[..|b| - 1];
      MapAppend(f, a, front);
      assert a + b == (a + front) + [b[|b| - 1]];
      MapSnoc(f, a + front, b[|b| - 1]);
      MapSnoc(f, front, b[|b| - 1]);
      assert b == front + [b[|b| - 1]];
    }
  }

  lemma SliceSnoc<T>(xs: seq<T>, i: nat, j: nat)
    requires i <= j < |xs|
    ensures xs[i..j + 1] == xs[i..j] + [xs[j]]
  {
  }

  /** `xs[index:index + n]`, cut short at the end as Python's slices are. */
  function Window<T>(xs: seq<T>, index: nat, n: nat): (r: seq<T>)
    ensures |r| <= n
  {
    var start := if index <= |xs| then index else |xs|;
    var stop := if start + n <= |xs| then start + n else |xs|;
    xs[start..stop]
  }

  /**
   The windows a reader taking `n` entries at a time sees from `index` on, up to and
   including the first one that comes up short.
   */
  function Windows<T>(xs: seq<T>, index: nat, n: nat): seq<seq<T>>
    requires n > 0
    decreases |xs| - index
  {
    [Window(xs, index, n)] + (if index + n > |xs| then [] else Windows(xs, index + n, n))
  }

  lemma FlattenCons<T>(g: seq<T>, gs: seq<seq<T>>)
    ensures Flatten([g] + gs) == g + Flatten(gs)
  {
    assert ([g] + gs)[1..] == gs;
  }

  /** A window that is not the last one is full. */
  lemma WindowFull<T>(xs: seq<T>, index: nat, n: nat)
    requires index + n <= |xs|
    ensures Window(xs, index, n) == xs[index..index + n]
    ensures xs[index..] == Window(xs, index, n) + xs[index + n..]
  {
  }

  /** The windows cover the entries from `index` on, once each and in order. */
  lemma {:induction false} WindowsCover<T>(xs: seq<T>, index: nat, n: nat)
    requires n > 0 && index <= |xs|
    ensures Flatten(Windows(xs, index, n)) == xs[index..]
    decreases |xs| - index
  {
    var w := Window(xs, index, n);
    if index + n > |xs| {
      FlattenCons(w, []);
    } else {
      var rest := Windows(xs, index + n, n);
      WindowsCover(xs, index + n, n);
      FlattenCons(w, rest);
      WindowFull(xs, index, n);
    }
  }

  /**
   Window `k` starts `k` steps of `n` after `index`, and it is the last one exactly when the
   entries run out before it is full.
   */
  lemma {:induction false} WindowsAt<T>(xs: seq<T>, index: nat, n: nat, k: nat)
    requires n > 0 && k < |Windows(xs, index, n)|
    ensures Windows(xs, index, n)[k] == Window(xs, index + k * n, n)
    ensures k == |Windows(xs, index, n)| - 1 <==> index + k * n + n > |xs|
    decreases k
  {
    var ws := Windows(xs, index, n);
    if k == 0 {
      assert |ws| == 1 <==> index + n > |xs|;
    } else {
      var rest := Windows(xs, index + n, n);
      assert index + n <= |xs|;
      assert ws == [Window(xs, index, n)] + rest;
      assert ws[k] == rest[k - 1] && |ws| == |rest| + 1;
      WindowsAt(xs, index + n, n, k - 1);
      MulSucc(k - 1, n);
      assert index + n + (k - 1) * n == index + k * n;
    }
  }

  /**
   Every window but the last is full, and the last one comes up short: it holds the
   remainder, which is nothing when the entries from `index` on are a multiple of `n`.
   */
  lemma {:induction false} WindowsSizes<T>(xs: seq<T>, index: nat, n: nat)
    requires n > 0 && index <= |xs|
    ensures var ws := Windows(xs, index, n);
      && |ws| >= 1
      && (forall i :: 0 <= i < |ws| - 1 ==> |ws[i]| == n)
      && |ws[|ws| - 1]| < n
      && (|ws| - 1) * n + |ws[|ws| - 1]| == |xs| - index
    decreases |xs| - index
  {
    var ws := Windows(xs, index, n);
    if index + n <= |xs| {
      WindowsSizes(xs, index + n, n);
      var rest := Windows(xs, index + n, n);
      WindowFull(xs, index, n);
      assert ws == [ws[0]] + rest;
      forall i | 0 <= i < |ws| - 1 ensures |ws[i]| == n {
        if i > 0 {
          assert ws[i] == rest[i - 1];
        }
      }
      assert |ws| - 1 == |rest| && ws[|ws| - 1] == rest[|rest| - 1];
      MulSucc(|rest| - 1, n);
    }
  }

  /**
   The windows a reader sees when it reads at 0 and then, whatever the first read said,
   keeps reading `n` further on until a later read comes up short.
   */
  function ReadsPastFirst<T>(xs: seq<T>, n: nat): seq<seq<T>>
    requires n > 0
  {
    [Window(xs, 0, n)] + Windows(xs, n, n)
  }

  /**
   With fewer than `n` entries the reader sees all of them and then nothing; otherwise it
   sees the same windows as a reader that stops at the first short read.
   */
  lemma ReadsPastFirstShape<T>(xs: seq<T>, n: nat)
    requires n > 0
    ensures |xs| < n ==> ReadsPastFirst(xs, n) == [xs, []]
    ensures |xs| >= n ==> ReadsPastFirst(xs, n) == Windows(xs, 0, n)
  {
    if |xs| < n {
      assert Windows(xs, n, n) == [Window(xs, n, n)];
      assert Window(xs, n, n) == [] && Window(xs, 0, n) == xs[0..|xs|] == xs;
    }
  }

  /**
   Read `k` is taken at `k * n`, and it is the last one exactly when it is not the first and
   it comes up short.
   */
  lemma ReadsPastFirstAt<T>(xs: seq<T>, n: nat, k: nat)
    requires n > 0 && k < |ReadsPastFirst(xs, n)|
    ensures ReadsPastFirst(xs, n)[k] == Window(xs, k * n, n)
    ensures k == |ReadsPastFirst(xs, n)| - 1 <==> k > 0 && k * n + n > |xs|
  {
    if k > 0 {
      var rest := Windows(xs, n, n);
      assert ReadsPastFirst(xs, n)[k] == rest[k - 1];
      WindowsAt(xs, n, n, k - 1);
      MulSucc(k - 1, n);
    }
  }

  /** The reads cover the entries once each, in order. */
  lemma ReadsPastFirstCover<T>(xs: seq<T>, n: nat)
    requires n > 0
    ensures Flatten(ReadsPastFirst(xs, n)) == xs
  {
    ReadsPastFirstShape(xs, n);
    if |xs| < n {
      FlattenPair(xs, []);
    } else {
      WindowsCover(xs, 0, n);
      assert xs[0..] == xs;
    }
  }

  lemma MulSucc(k: int, n: int)
    ensures (k + 1) * n == k * n + n
  {
  }

  /** `f` applied inside every run. */
  function MapEach<T, U>(f: T -> U, gs: seq<seq<T>>): (r: seq<seq<U>>)
    ensures |r| == |gs|
  {
    if gs == [] then [] else MapEach(f, gs[..|gs| - 1]) + [Map(f, gs[|gs| - 1])]
  }

  lemma {:induction false} MapEachAt<T, U>(f: T -> U, gs: seq<seq<T>>, i: nat)
    requires i < |gs|
    ensures MapEach(f, gs)[i] == Map(f, gs[i])
    decreases |gs|
  {
    if i < |gs| - 1 {
      MapEachAt(f, gs[..|gs| - 1], i);
    }
  }

  /** Mapping inside the runs and then joining them maps the joined list. */
  lemma {:induction false} FlattenMapEach<T, U>(f: T -> U, gs: seq<seq<T>>)
    ensures Flatten(MapEach(f, gs)) == Map(f, Flatten(gs))
    decreases |gs|
  {
    if gs != [] {
      var front, last := gs[..|gs| - 1], gs[|gs| - 1];
      FlattenMapEach(f, front);
      assert gs == front + [last];
      FlattenAppend(front, [last]);
      FlattenAppend(MapEach(f, front), [Map(f, last)]);
      assert Flatten([last]) == last + Flatten([]);
      assert Flatten([Map(f, last)]) == Map(f, last) + Flatten([]);
      MapAppend(f, Flatten(front), last);
      assert MapEach(f, gs) == MapEach(f, front) + [Map(f, last)];
      assert Flatten(gs) == Flatten(front) + last;
      assert Flatten(MapEach(f, gs)) == Flatten(MapEach(f, front)) + Map(f, last);
    }
  }

  /** The results `f` gives, in order, leaving out the `None`s. */
  function Collect<T, U>(f: T -> Option<U>, xs: seq<T>): (r: seq<U>)
    ensures |r| <= |xs|
  {
    if xs == [] then []
    else
      var y := f(xs[|xs| - 1]);
      Collect(f, xs[..|xs| - 1]) + (if y.Some? then [y.value] else [])
  }

  lemma CollectStep<T, U>(f: T -> Option<U>, xs: seq<T>, i: nat)
    requires i < |xs|
    ensures Collect(f, xs[..i + 1]) == Collect(f, xs[..i]) + (if f(xs[i]).Some? then [f(xs[i]).value] else [])
  {
    assert xs[..i + 1][..i] == xs[..i];
  }

  /** Collecting from a prefix gives a prefix of the whole collection. */
  lemma {:induction false} CollectPrefix<T, U>(f: T -> Option<U>, xs: seq<T>, k: nat)
    requires k <= |xs|
    ensures IsPrefix(Collect(f, xs[..k]), Collect(f, xs))
    decreases |xs| - k
  {
    if k < |xs| {
      CollectPrefix(f, xs, k + 1);
      CollectStep(f, xs, k);
      PrefixTrans(Collect(f, xs[..k]), Collect(f, xs[..k + 1]), Collect(f, xs));
    } else {
      assert xs[..k] == xs;
    }
  }

  /**
   Once a prefix holds `cap` first-per-key entries passing `p`, the rest of the list cannot
   change the first `cap` of them.
   */
  lemma FirstKeysDone<T>(id: T -> string, p: T -> bool, ys: seq<T>, xs: seq<T>, cap: nat)
    requires IsPrefix(ys, xs)
    requires |FirstPerKey(id, Filter(p, ys))| == cap
    ensures Take(FirstPerKey(id, Filter(p, xs)), cap) == FirstPerKey(id, Filter(p, ys))
  {
    assert ys == xs[..|ys|];
    FilterPrefix(p, xs, |ys|);
    FirstPerKeyPrefix(id, Filter(p, ys), Filter(p, xs));
  }

  /** Reading one more entry: it is kept when it parses, passes `p` and has a new key. */
  lemma FirstKeptStep<T, U>(f: T -> Option<U>, p: U -> bool, id: U -> string, xs: seq<T>, i: nat)
    requires i < |xs|
    ensures var before := FirstPerKey(id, Filter(p, Collect(f, xs[..i])));
      var y := f(xs[i]);
      FirstPerKey(id, Filter(p, Collect(f, xs[..i + 1])))
        == before + (if y.Some? && p(y.value) && id(y.value) !in Ids(id, before) then [y.value] else [])
  {
    CollectStep(f, xs, i);
    var c := Collect(f, xs[..i]);
    var y := f(xs[i]);
    var before := FirstPerKey(id, Filter(p, c));
    if y.Some? {
      assert Collect(f, xs[..i + 1]) == c + [y.value];
      FilterSnoc(p, c, y.value);
      if p(y.value) {
        FirstPerKeySnoc(id, Filter(p, c), y.value);
        assert Ids(id, before) == Ids(id, Filter(p, c));
      } else {
        assert Filter(p, Collect(f, xs[..i + 1])) == Filter(p, c);
      }
    } else {
      assert Collect(f, xs[..i + 1]) == c;
    }
  }

  /**
   One step of a first-per-key reading loop that keeps the kept entries `r` and their key set
   `ids`: the next entry is appended, and its key added, exactly when it parses, passes `p`
   and has a new key.
   */
  lemma FirstKeptNext<T, U>(f: T -> Option<U>, p: U -> bool, id: U -> string, xs: seq<T>, i: nat,
                            r: seq<U>, ids: set<string>)
    requires i < |xs|
    requires r == FirstPerKey(id, Filter(p, Collect(f, xs[..i])))
    requires ids == Ids(id, r)
    ensures var y := f(xs[i]);
      if y.Some? && p(y.value) && id(y.value) !in ids then
        && FirstPerKey(id, Filter(p, Collect(f, xs[..i + 1]))) == r + [y.value]
        && Ids(id, r + [y.value]) == ids + {id(y.value)}
      else
        FirstPerKey(id, Filter(p, Collect(f, xs[..i + 1]))) == r
  {
    FirstKeptStep(f, p, id, xs, i);
    var y := f(xs[i]);
    if y.Some? {
      IdsSnoc(id, r, y.value);
    }
  }

  /**
   Leaving a capped first-per-key reading loop, because the input ran out or because `cap`
   entries are kept: the kept entries are the first `cap` of the whole result.
   */
  lemma FirstKeptExit<T, U>(f: T -> Option<U>, p: U -> bool, id: U -> string, xs: seq<T>, i: nat,
                            r: seq<U>, cap: nat, full: bool)
    requires i <= |xs|
    requires r == FirstPerKey(id, Filter(p, Collect(f, xs[..i])))
    requires if full then |r| == cap else |r| < cap && i == |xs|
    ensures r == Take(FirstPerKey(id, Filter(p, Collect(f, xs))), cap)
  {
    CollectPrefix(f, xs, i);
    if full {
      FirstKeysDone(id, p, Collect(f, xs[..i]), Collect(f, xs), cap);
    } else {
      assert xs[..i] == xs;
    }
  }

  /** An entry at the head of the list that parses and passes `p` heads the first-per-key list. */
  lemma FirstKeptHead<T, U>(f: T -> Option<U>, p: U -> bool, id: U -> string, x: T, rest: seq<T>)
    requires f(x).Some? && p(f(x).value)
    ensures var r := FirstPerKey(id, Filter(p, Collect(f, [x] + rest)));
      |r| > 0 && r[0] == f(x).value
  {
    var xs := [x] + rest;
    var y := f(x).value;
    assert xs[..0] == [] && Collect(f, []) == [] && Filter(p, []) == [] && FirstPerKey(id, []) == [];
    FirstKeptStep(f, p, id, xs, 0);
    assert FirstPerKey(id, Filter(p, Collect(f, xs[..1]))) == [y];
    CollectPrefix(f, xs, 1);
    var c := Collect(f, xs);
    var c1 := Collect(f, xs[..1]);
    assert c1 == c[..|c1|];
    FilterPrefix(p, c, |c1|);
    FirstPerKeyPrefix(id, Filter(p, c1), Filter(p, c));
  }

  /**
   Reading entries until the first error: the values `f` gives, with the `None`s dropped, or
   the first error `f` reports.
   */
  function Gather<T, U, E>(f: T -> Result<Option<U>, E>, xs: seq<T>): Result<seq<U>, E> {
    if xs == [] then Success([])
    else
      var front := Gather(f, xs[..|xs| - 1]);
      var last := f(xs[|xs| - 1]);
      if front.Failure? then front
      else if last.Failure? then Failure(last.error)
      else Success(front.value + (if last.value.Some? then [last.value.value] else []))
  }

  /** Gathering fails exactly when some entry fails, and then with the error of the first one. */
  lemma {:induction false} GatherFails<T, U, E>(f: T -> Result<Option<U>, E>, xs: seq<T>)
    ensures Gather(f, xs).Failure? <==> exists i :: 0 <= i < |xs| && f(xs[i]).Failure?
    ensures Gather(f, xs).Failure? ==> exists i :: (
      && 0 <= i < |xs| && f(xs[i]).Failure? && Gather(f, xs).error == f(xs[i]).error
      && forall j :: 0 <= j < i ==> f(xs[j]).Success?)
    decreases |xs|
  {
    if xs != [] {
      var front := xs[..|xs| - 1];
      GatherFails(f, front);
      if Gather(f, front).Failure? {
        var i :| && 0 <= i < |front| && f(front[i]).Failure? && Gather(f, front).error == f(front[i]).error
                 && forall j :: 0 <= j < i ==> f(front[j]).Success?;
        assert xs[i] == front[i];
        forall j | 0 <= j < i ensures f(xs[j]).Success? {
          assert xs[j] == front[j];
        }
      } else {
        forall j | 0 <= j < |front| ensures f(xs[j]).Success? {
          assert xs[j] == front[j];
        }
      }
    }
  }

  /** Appending one element and then a sequence is appending their concatenation. */
  lemma SnocThenAppend<T>(m: seq<T>, t: T, ts: seq<T>)
    ensures (m + [t]) + ts == m + ([t] + ts)
  {
  }

  /** Flattening one or two groups concatenates them. */
  lemma FlattenPair<T>(x: seq<T>, y: seq<T>)
    ensures Flatten([x, y]) == x + y && Flatten([x]) == x
  {
    assert [y][1..] == [];
    assert Flatten([y]) == y + Flatten([]) == y;
    assert [x, y][1..] == [y];
    assert [x][1..] == [];
    assert Flatten([x]) == x + Flatten([]);
  }
}
