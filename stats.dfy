/** The package statistics of the older revision, `pispy/data/stats.py`: the
    registry's per-package sizes, largest first. */
module Stats {
  import opened Json

  /** One package and its size (`Package`). */
  datatype Package = Package(name: string, size: int)

  /** `[Package(k, v["size"]) for k, v in data.items()]`, in the order of the
      decoded object; `None` when some entry has no "size" (the `KeyError`
      the comprehension raises). */
  function Entries(data: seq<(string, map<string, int>)>): (r: Option<seq<Package>>)
    ensures r.None? <==> exists i :: 0 <= i < |data| && "size" !in data[i].1
    ensures r.Some? ==> |r.value| == |data|
    ensures r.Some? ==> forall i :: 0 <= i < |data| ==> r.value[i] == Package(data[i].0, data[i].1["size"])
  {
    if data == [] then Some([])
    else if "size" !in data[0].1 then None
    else match Entries(data[1..])
      case None => None
      case Some(rest) => Some([Package(data[0].0, data[0].1["size"])] + rest)
  }

  /** Largest first: sizes never increase along the list. */
  predicate SortedBySize(ps: seq<Package>) {
    forall i, j :: 0 <= i < j < |ps| ==> ps[i].size >= ps[j].size
  }

  /** Inserts `p` into a list sorted largest first, after every package at
      least as large, so that it follows the packages of its size that are
      already there. */
  function Insert(p: Package, ps: seq<Package>): (r: seq<Package>)
    ensures |r| == |ps| + 1
  {
    if ps == [] then [p]
    else if ps[0].size >= p.size then [ps[0]] + Insert(p, ps[1..])
    else [p] + ps
  }

  /** Inserting adds `p` and loses nothing. */
  lemma {:induction false} InsertPermutes(p: Package, ps: seq<Package>)
    ensures multiset(Insert(p, ps)) == multiset(ps) + multiset{p}
  {
    if ps != [] && ps[0].size >= p.size {
      InsertPermutes(p, ps[1..]);
      assert ps == [ps[0]] + ps[1..];
    }
  }

  /** Every package in `ps` has at most the given size. */
  predicate AtMost(ps: seq<Package>, size: int) {
    forall i :: 0 <= i < |ps| ==> ps[i].size <= size
  }

  /** Inserting into a list sorted largest first keeps it sorted, and adds
      nothing larger than both the list's first package and `p`. */
  lemma {:induction false} InsertSorted(p: Package, ps: seq<Package>)
    requires SortedBySize(ps)
    ensures SortedBySize(Insert(p, ps))
    ensures forall size :: AtMost(ps, size) && p.size <= size ==> AtMost(Insert(p, ps), size)
  {
    if ps != [] && ps[0].size >= p.size {
      var tail := Insert(p, ps[1..]);
      InsertSorted(p, ps[1..]);
      assert AtMost(ps[1..], ps[0].size);
      assert AtMost(tail, ps[0].size);
      var r := Insert(p, ps);
      assert r == [ps[0]] + tail;
      forall size | AtMost(ps, size) && p.size <= size ensures AtMost(r, size) {
        assert AtMost(ps[1..], size);
      }
    } else if ps != [] {
      var r := Insert(p, ps);
      assert r == [p] + ps;
    }
  }

  /** `sorted(ps, key=lambda package: package.size, reverse=True)`: a
      stable sort, largest first. */
  function SortBySize(ps: seq<Package>): (r: seq<Package>)
    ensures |r| == |ps|
  {
    if ps == [] then [] else Insert(ps[|ps| - 1], SortBySize(ps[..|ps| - 1]))
  }

  /** The sort is a permutation. */
  lemma {:induction false} SortPermutes(ps: seq<Package>)
    ensures multiset(SortBySize(ps)) == multiset(ps)
  {
    if ps != [] {
      SortPermutes(ps[..|ps| - 1]);
      InsertPermutes(ps[|ps| - 1], SortBySize(ps[..|ps| - 1]));
      SplitLast(ps);
    }
  }

  /** A non-empty list is its front followed by its last element. */
  lemma SplitLast(ps: seq<Package>)
    requires ps != []
    ensures ps == ps[..|ps| - 1] + [ps[|ps| - 1]]
  {
  }

  /** The sort puts the packages largest first. */
  lemma {:induction false} SortSorted(ps: seq<Package>)
    ensures SortedBySize(SortBySize(ps))
  {
    if ps != [] {
      SortSorted(ps[..|ps| - 1]);
      InsertSorted(ps[|ps| - 1], SortBySize(ps[..|ps| - 1]));
    }
  }

  /** `Packages(data)._packages`, or `None` when `__init__` raises. */
  function FromStats(data: seq<(string, map<string, int>)>): Option<seq<Package>> {
    match Entries(data)
    case None => None
    case Some(ps) => Some(SortBySize(ps))
  }

  /** The packages of a given size, in order. */
  function OfSize(ps: seq<Package>, size: int): seq<Package> {
    if ps == [] then []
    else (if ps[0].size == size then [ps[0]] else []) + OfSize(ps[1..], size)
  }

  lemma {:induction false} OfSizeAppend(ps: seq<Package>, p: Package, size: int)
    ensures OfSize(ps + [p], size) == OfSize(ps, size) + (if p.size == size then [p] else [])
  {
    if ps != [] {
      assert (ps + [p])[1..] == ps[1..] + [p];
      OfSizeAppend(ps[1..], p, size);
    }
  }

  /** A list sorted largest first has no package of a size above its first. */
  lemma {:induction false} OfSizeAbove(ps: seq<Package>, size: int)
    requires SortedBySize(ps) && ps != [] && size > ps[0].size
    ensures OfSize(ps, size) == []
  {
    if |ps| > 1 {
      OfSizeAbove(ps[1..], size);
    }
  }

  /** What follows the head of a sorted list is sorted. */
  lemma SortedTail(ps: seq<Package>)
    requires ps != [] && SortedBySize(ps)
    ensures SortedBySize(ps[1..])
  {
  }

  /** Inserting keeps the order of the packages of every size and puts the
      new package last among those of its own size. */
  lemma {:induction false} InsertOfSize(p: Package, ps: seq<Package>, size: int)
    requires SortedBySize(ps)
    ensures OfSize(Insert(p, ps), size) == OfSize(ps, size) + (if p.size == size then [p] else [])
  {
    var extra := if p.size == size then [p] else [];
    if ps == [] {
      assert Insert(p, ps) == [p] + ps;
      OfSizeCons(p, ps, size);
    } else if ps[0].size >= p.size {
      var rest := ps[1..];
      var first := if ps[0].size == size then [ps[0]] else [];
      SortedTail(ps);
      InsertOfSize(p, rest, size);
      assert Insert(p, ps) == [ps[0]] + Insert(p, rest);
      OfSizeCons(ps[0], Insert(p, rest), size);
      assert OfSize(ps, size) == first + OfSize(rest, size);
      assert first + (OfSize(rest, size) + extra) == first + OfSize(rest, size) + extra;
    } else {
      assert Insert(p, ps) == [p] + ps;
      OfSizeCons(p, ps, size);
      if p.size == size {
        OfSizeAbove(ps, size);
      }
      assert extra + OfSize(ps, size) == OfSize(ps, size) + extra;
    }
  }

  /** The packages of a given size in a list with one more package in front. */
  lemma OfSizeCons(x: Package, xs: seq<Package>, size: int)
    ensures OfSize([x] + xs, size) == (if x.size == size then [x] else []) + OfSize(xs, size)
  {
    assert ([x] + xs)[1..] == xs;
  }

  /** The sort is stable: the packages of every size come in their original
      order. */
  lemma {:induction false} SortStable(ps: seq<Package>, size: int)
    ensures OfSize(SortBySize(ps), size) == OfSize(ps, size)
  {
    if ps != [] {
      var init, last := ps[..|ps| - 1], ps[|ps| - 1];
      SortStable(init, size);
      SortSorted(init);
      InsertOfSize(last, SortBySize(init), size);
      SplitLast(ps);
      OfSizeAppend(init, last, size);
    }
  }

  /** What `Packages(data)` holds: one package per key, with that key's
      size, largest first and stable among equal sizes; and `__init__`
      raises exactly when some entry has no size. */
  lemma {:induction false} FromStatsSpec(data: seq<(string, map<string, int>)>)
    ensures FromStats(data).None? <==> exists i :: 0 <= i < |data| && "size" !in data[i].1
    ensures FromStats(data).Some? ==>
      && SortedBySize(FromStats(data).value)
      && |FromStats(data).value| == |data|
      && multiset(FromStats(data).value) == multiset(Entries(data).value)
      && forall size :: OfSize(FromStats(data).value, size) == OfSize(Entries(data).value, size)
  {
    if Entries(data).Some? {
      var ps := Entries(data).value;
      SortSorted(ps);
      SortPermutes(ps);
      forall size ensures OfSize(SortBySize(ps), size) == OfSize(ps, size) {
        SortStable(ps, size);
      }
    }
  }
}
