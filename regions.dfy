/** The region analysis of Board.java, stated declaratively: a region of a
 *  side is a maximal set of its pieces joined through 8-adjacent squares.
 *  The flood fill (numContig/computeRegions, in the Board class) is proved
 *  against these definitions. */
module Regions {
  import opened Pieces
  import opened Squares
  import opened Lines

  /** A walk through 8-adjacent squares that all hold P: its first square
   *  holds P and, unless it is the last, is adjacent to the start of a
   *  walk made of the rest. */
  ghost predicate IsPath(cells: Cells, p: Piece, path: seq<Square>)
    decreases |path|
  {
    |path| > 0 && Get(cells, path[0]) == p &&
    (|path| > 1 ==> Adj(path[0], path[1]) && IsPath(cells, p, path[1..]))
  }

  /** A and B are joined by a walk over P's pieces. */
  ghost predicate Joined(cells: Cells, p: Piece, a: Square, b: Square) {
    exists path {:trigger IsPath(cells, p, path)} ::
      IsPath(cells, p, path) && path[0] == a && path[|path| - 1] == b
  }

  /** The squares holding P. */
  function PiecesOf(cells: Cells, p: Piece): set<Square> {
    set i | 0 <= i < BOARD_SIZE * BOARD_SIZE && cells[i] == p :: SquareAt(i)
  }

  /** P has pieces and every two of them are joined: P is contiguous. */
  ghost predicate Contiguous(cells: Cells, p: Piece) {
    PiecesOf(cells, p) != {} &&
    forall a, b :: a in PiecesOf(cells, p) && b in PiecesOf(cells, p) ==> Joined(cells, p, a, b)
  }

  /** The squares of M holding P. */
  function Part(cells: Cells, m: set<Square>, p: Piece): set<Square> {
    set x | x in m && Get(cells, x) == p
  }

  /** M contains every same-coloured neighbour of each of its squares. */
  ghost predicate SameColorClosed(cells: Cells, m: set<Square>) {
    forall x, y :: x in m && Adj(x, y) && Get(cells, y) == Get(cells, x) ==> y in m
  }

  function Sum(s: seq<int>): int {
    if s == [] then 0 else s[0] + Sum(s[1..])
  }

  predicate SortedDesc(s: seq<int>) {
    forall i, j :: 0 <= i < j < |s| ==> s[i] >= s[j]
  }

  /** The region of side P that contains S: P's pieces joined to S. */
  ghost function Region(cells: Cells, p: Piece, s: Square): set<Square> {
    set x | x in PiecesOf(cells, p) && Joined(cells, p, s, x)
  }

  /** X is joined to one of the squares SEEDS through P's pieces. */
  ghost predicate InSomeRegion(cells: Cells, p: Piece, seeds: seq<Square>, x: Square) {
    exists k :: 0 <= k < |seeds| && Joined(cells, p, seeds[k], x)
  }

  /** SEEDS name P's regions, one each, and SIZES[k] is the size of the
   *  region of SEEDS[k]: every seed holds P, no two seeds are joined, and
   *  every piece of P is joined to some seed. */
  ghost predicate RegionList(cells: Cells, p: Piece, seeds: seq<Square>, sizes: seq<int>) {
    |seeds| == |sizes| &&
    (forall k :: 0 <= k < |seeds| ==>
      Get(cells, seeds[k]) == p && sizes[k] == |Region(cells, p, seeds[k])|) &&
    (forall i, j :: 0 <= i < j < |seeds| ==> !Joined(cells, p, seeds[i], seeds[j])) &&
    (forall x {:trigger InSomeRegion(cells, p, seeds, x)} ::
      x in PiecesOf(cells, p) ==> InSomeRegion(cells, p, seeds, x))
  }

  /** What the region-size list of side P promises: the sizes of P's
   *  regions, one entry per region, in non-increasing order; they are
   *  positive, add up to P's piece count, and there is exactly one region
   *  iff P is contiguous. */
  ghost predicate RegionSummary(cells: Cells, p: Piece, sizes: seq<int>) {
    (forall k :: 0 <= k < |sizes| ==> sizes[k] > 0) &&
    SortedDesc(sizes) &&
    Sum(sizes) == |PiecesOf(cells, p)| &&
    (|sizes| == 1 <==> Contiguous(cells, p)) &&
    exists seeds: seq<Square>, listed: seq<int> {:trigger RegionList(cells, p, seeds, listed)} ::
      RegionList(cells, p, seeds, listed) && multiset(listed) == multiset(sizes)
  }

  lemma PiecesOfMember(cells: Cells, p: Piece, s: Square)
    ensures s in PiecesOf(cells, p) <==> Get(cells, s) == p
  {
    IndexRoundTrip(s);
  }

  // ---------------------------------------------------------------------
  // Walks
  // ---------------------------------------------------------------------

  lemma JoinedRefl(cells: Cells, p: Piece, a: Square)
    requires Get(cells, a) == p
    ensures Joined(cells, p, a, a)
  {
    assert IsPath(cells, p, [a]);
  }

  /** Two walks, the second starting next to where the first ends, make
   *  one walk. */
  lemma {:induction false} PathAppend(cells: Cells, p: Piece, s: seq<Square>, t: seq<Square>)
    requires IsPath(cells, p, s) && IsPath(cells, p, t) && Adj(s[|s| - 1], t[0])
    ensures IsPath(cells, p, s + t)
    decreases |s|
  {
    if |s| == 1 {
      assert (s + t)[1..] == t;
    } else {
      PathAppend(cells, p, s[1..], t);
      assert (s + t)[1..] == s[1..] + t;
    }
  }

  /** One step onto a walk. */
  lemma JoinStep(cells: Cells, p: Piece, a: Square, b: Square, x: Square)
    requires Get(cells, a) == p && Adj(a, b) && Joined(cells, p, b, x)
    ensures Joined(cells, p, a, x)
  {
    var path :| IsPath(cells, p, path) && path[0] == b && path[|path| - 1] == x;
    var longer := [a] + path;
    assert longer[1..] == path;
    assert IsPath(cells, p, longer);
    assert longer[|longer| - 1] == x;
  }

  function Reverse(s: seq<Square>): (r: seq<Square>)
    ensures |r| == |s| && forall k :: 0 <= k < |s| ==> r[k] == s[|s| - 1 - k]
  {
    if s == [] then [] else Reverse(s[1..]) + [s[0]]
  }

  /** A walk read backwards is a walk. */
  lemma {:induction false} PathReverse(cells: Cells, p: Piece, path: seq<Square>)
    requires IsPath(cells, p, path)
    ensures IsPath(cells, p, Reverse(path))
    decreases |path|
  {
    if |path| > 1 {
      PathReverse(cells, p, path[1..]);
      assert IsPath(cells, p, [path[0]]);
      PathAppend(cells, p, Reverse(path[1..]), [path[0]]);
    }
  }

  lemma JoinedSym(cells: Cells, p: Piece, a: Square, b: Square)
    requires Joined(cells, p, a, b)
    ensures Joined(cells, p, b, a)
  {
    var path :| IsPath(cells, p, path) && path[0] == a && path[|path| - 1] == b;
    PathReverse(cells, p, path);
    var back := Reverse(path);
    assert back[0] == b && back[|back| - 1] == a;
  }

  lemma JoinedTrans(cells: Cells, p: Piece, a: Square, b: Square, c: Square)
    requires Joined(cells, p, a, b) && Joined(cells, p, b, c)
    ensures Joined(cells, p, a, c)
  {
    var p1 :| IsPath(cells, p, p1) && p1[0] == a && p1[|p1| - 1] == b;
    var p2 :| IsPath(cells, p, p2) && p2[0] == b && p2[|p2| - 1] == c;
    if |p2| > 1 {
      PathAppend(cells, p, p1, p2[1..]);
      var both := p1 + p2[1..];
      assert both[0] == a && both[|both| - 1] == c;
    }
  }

  /** A set closed under same-coloured adjacency contains the end of every
   *  walk that starts in it. */
  lemma {:induction false} PathStaysIn(cells: Cells, p: Piece, m: set<Square>, path: seq<Square>)
    requires SameColorClosed(cells, m)
    requires IsPath(cells, p, path) && path[0] in m
    ensures path[|path| - 1] in m
    decreases |path|
  {
    if |path| > 1 {
      PathStaysIn(cells, p, m, path[1..]);
    }
  }

  lemma JoinedStaysIn(cells: Cells, p: Piece, m: set<Square>, a: Square, b: Square)
    requires SameColorClosed(cells, m) && a in m && Joined(cells, p, a, b)
    ensures b in m
  {
    var path :| IsPath(cells, p, path) && path[0] == a && path[|path| - 1] == b;
    PathStaysIn(cells, p, m, path);
  }

  // ---------------------------------------------------------------------
  // Sorting (Collections.sort with reverseOrder) and sums
  // ---------------------------------------------------------------------

  /** X inserted into a non-increasing list. */
  function Insert(x: int, s: seq<int>): (r: seq<int>)
    requires SortedDesc(s)
    ensures SortedDesc(r) && |r| == |s| + 1
    ensures r[0] == x || (|s| > 0 && r[0] == s[0])
  {
    if s == [] || x >= s[0] then [x] + s
    else
      var rest := Insert(x, s[1..]);
      SortedCons(s[0], rest);
      [s[0]] + rest
  }

  /** Insert adds X to the list's elements and to its sum. */
  lemma {:induction false} InsertCounts(x: int, s: seq<int>)
    requires SortedDesc(s)
    ensures multiset(Insert(x, s)) == multiset(s) + multiset{x}
    ensures Sum(Insert(x, s)) == Sum(s) + x
  {
    if s != [] && x < s[0] {
      var rest := Insert(x, s[1..]);
      InsertCounts(x, s[1..]);
      assert s == [s[0]] + s[1..];
      assert ([s[0]] + rest)[1..] == rest;
    }
  }

  lemma SortedCons(h: int, s: seq<int>)
    requires SortedDesc(s) && (s == [] || h >= s[0])
    ensures SortedDesc([h] + s)
  {
    var r := [h] + s;
    forall i, j | 0 <= i < j < |r| ensures r[i] >= r[j] {
      if i == 0 && j > 1 {
        assert s[0] >= s[j - 1];
      }
    }
  }

  /** S sorted into non-increasing order. */
  function SortDesc(s: seq<int>): (r: seq<int>)
    ensures SortedDesc(r) && |r| == |s|
    ensures multiset(r) == multiset(s)
    ensures Sum(r) == Sum(s)
  {
    if s == [] then []
    else
      assert s == [s[0]] + s[1..];
      InsertCounts(s[0], SortDesc(s[1..]));
      Insert(s[0], SortDesc(s[1..]))
  }

  lemma SumAppend(s: seq<int>, x: int)
    ensures Sum(s + [x]) == Sum(s) + x
  {
    if s != [] {
      assert (s + [x])[1..] == s[1..] + [x];
      SumAppend(s[1..], x);
    }
  }

  // ---------------------------------------------------------------------
  // The invariant of computeRegions' scan, for one side
  // ---------------------------------------------------------------------

  /** After the fills so far have marked M and produced the sizes SIZES for
   *  side P, grown from the squares SEEDS: each entry is the size of its
   *  seed's region, the seeds lie in distinct regions, and every P square
   *  of M is joined to one of them. */
  ghost predicate FillInv(cells: Cells, m: set<Square>, p: Piece, sizes: seq<int>, seeds: seq<Square>) {
    |seeds| == |sizes| &&
    (forall k :: 0 <= k < |sizes| ==> sizes[k] > 0) &&
    Sum(sizes) == |Part(cells, m, p)| &&
    (forall k :: 0 <= k < |seeds| ==>
      seeds[k] in m && Get(cells, seeds[k]) == p && sizes[k] == |Region(cells, p, seeds[k])|) &&
    (forall i, j :: 0 <= i < j < |seeds| ==> !Joined(cells, p, seeds[i], seeds[j])) &&
    (forall x {:trigger InSomeRegion(cells, p, seeds, x)} ::
      x in Part(cells, m, p) ==> InSomeRegion(cells, p, seeds, x))
  }

  /** Before any fill. */
  lemma FillInvInit(cells: Cells, p: Piece)
    ensures FillInv(cells, {}, p, [], [])
  {
    assert Part(cells, {}, p) == {};
  }

  lemma PartUnion(cells: Cells, m: set<Square>, n: set<Square>, p: Piece)
    requires m !! n && forall x :: x in n ==> Get(cells, x) == p
    ensures |Part(cells, m + n, p)| == |Part(cells, m, p)| + |n|
  {
    assert Part(cells, m + n, p) == Part(cells, m, p) + n;
    assert Part(cells, m, p) !! n;
  }

  lemma SameColourStart(cells: Cells, p: Piece, s: Square, x: Square)
    requires Joined(cells, p, s, x)
    ensures Get(cells, s) == p
  {
    var path :| IsPath(cells, p, path) && path[0] == s && path[|path| - 1] == x;
  }

  /** A fill from S that marked the fresh squares N, all P's joined to S,
   *  leaving the marked set closed as it was before, marked exactly the
   *  region of S. */
  lemma FillIsRegion(cells: Cells, m: set<Square>, n: set<Square>, p: Piece, s: Square)
    requires SameColorClosed(cells, m) && SameColorClosed(cells, m + n)
    requires m !! n && s in n
    requires forall x :: x in n ==> Get(cells, x) == p && Joined(cells, p, s, x)
    ensures Region(cells, p, s) == n
  {
    forall x | x in Region(cells, p, s) ensures x in n {
      JoinedStaysIn(cells, p, m + n, s, x);
      if x in m {
        JoinedSym(cells, p, s, x);
        JoinedStaysIn(cells, p, m, x, s);
      }
    }
    forall x | x in n ensures x in Region(cells, p, s) {
      PiecesOfMember(cells, p, x);
    }
  }

  /** A fill of side P from S marked the fresh squares N (all P's, all
   *  joined to S, the marked set staying closed) and returned TOTAL == |N|;
   *  a non-zero total is appended with S as its seed. */
  lemma FillInvStep(cells: Cells, m: set<Square>, n: set<Square>, p: Piece,
                    sizes: seq<int>, seeds: seq<Square>, s: Square, total: int)
    requires FillInv(cells, m, p, sizes, seeds)
    requires SameColorClosed(cells, m) && SameColorClosed(cells, m + n)
    requires m !! n && total == |n|
    requires forall x :: x in n ==> Get(cells, x) == p && Joined(cells, p, s, x)
    requires total != 0 ==> s in n
    ensures total == 0 ==> FillInv(cells, m + n, p, sizes, seeds)
    ensures total != 0 ==> FillInv(cells, m + n, p, sizes + [total], seeds + [s])
  {
    if total == 0 {
      assert m + n == m;
    } else {
      SameColourStart(cells, p, s, s);
      FillIsRegion(cells, m, n, p, s);
      PartUnion(cells, m, n, p);
      SumAppend(sizes, total);
      FillInvGrow(cells, m, n, p, sizes, seeds, s, total);
    }
  }

  /** The seed and coverage clauses of FillInvStep's non-empty case. */
  lemma FillInvGrow(cells: Cells, m: set<Square>, n: set<Square>, p: Piece,
                    sizes: seq<int>, seeds: seq<Square>, s: Square, total: int)
    requires FillInv(cells, m, p, sizes, seeds) && SameColorClosed(cells, m)
    requires m !! n && s in n && Get(cells, s) == p && total > 0
    requires total == |Region(cells, p, s)| && Sum(sizes + [total]) == |Part(cells, m + n, p)|
    requires forall x :: x in n ==> Joined(cells, p, s, x)
    ensures FillInv(cells, m + n, p, sizes + [total], seeds + [s])
  {
    var seeds' := seeds + [s];
    forall i, j | 0 <= i < j < |seeds'| ensures !Joined(cells, p, seeds'[i], seeds'[j]) {
      if j == |seeds| && Joined(cells, p, seeds[i], s) {
        JoinedStaysIn(cells, p, m, seeds[i], s);
      }
    }
    forall x | x in Part(cells, m + n, p) ensures InSomeRegion(cells, p, seeds', x) {
      if x in m {
        assert x in Part(cells, m, p) && InSomeRegion(cells, p, seeds, x);
        var k :| 0 <= k < |seeds| && Joined(cells, p, seeds[k], x);
        assert seeds'[k] == seeds[k];
      } else {
        assert seeds'[|seeds|] == s;
      }
    }
  }

  /** A fill of the other side leaves side Q's record as it was. */
  lemma FillInvOther(cells: Cells, m: set<Square>, n: set<Square>, p: Piece, q: Piece,
                     sizes: seq<int>, seeds: seq<Square>)
    requires FillInv(cells, m, q, sizes, seeds) && p != q
    requires forall x :: x in n ==> Get(cells, x) == p
    ensures FillInv(cells, m + n, q, sizes, seeds)
  {
    assert Part(cells, m + n, q) == Part(cells, m, q);
  }

  /** A list naming every region once has exactly one entry iff P is
   *  contiguous. */
  lemma RegionListContiguous(cells: Cells, p: Piece, seeds: seq<Square>, sizes: seq<int>)
    requires RegionList(cells, p, seeds, sizes)
    ensures |seeds| == 1 <==> Contiguous(cells, p)
  {
    if |seeds| == 1 {
      PiecesOfMember(cells, p, seeds[0]);
      forall a, b | a in PiecesOf(cells, p) && b in PiecesOf(cells, p)
        ensures Joined(cells, p, a, b)
      {
        assert InSomeRegion(cells, p, seeds, a) && InSomeRegion(cells, p, seeds, b);
        JoinedSym(cells, p, seeds[0], a);
        JoinedTrans(cells, p, a, seeds[0], b);
      }
    } else if Contiguous(cells, p) {
      if |seeds| == 0 {
        var a :| a in PiecesOf(cells, p);
        NotInNoRegion(cells, p, a);
      } else {
        PiecesOfMember(cells, p, seeds[0]);
        PiecesOfMember(cells, p, seeds[1]);
      }
    }
  }

  lemma NotInNoRegion(cells: Cells, p: Piece, x: Square)
    ensures !InSomeRegion(cells, p, [], x)
  {
  }

  /** Once every piece is marked, the sizes (after sorting) summarise P's
   *  regions. */
  lemma FillInvDone(cells: Cells, m: set<Square>, p: Piece, sizes: seq<int>, seeds: seq<Square>)
    requires FillInv(cells, m, p, sizes, seeds)
    requires forall s :: Get(cells, s) == p ==> s in m
    ensures RegionSummary(cells, p, SortDesc(sizes))
  {
    assert Part(cells, m, p) == PiecesOf(cells, p) by {
      forall s | s in PiecesOf(cells, p) ensures s in Part(cells, m, p) {
        PiecesOfMember(cells, p, s);
      }
      forall s | s in Part(cells, m, p) ensures s in PiecesOf(cells, p) {
        PiecesOfMember(cells, p, s);
      }
    }
    var sorted := SortDesc(sizes);
    forall k | 0 <= k < |sorted| ensures sorted[k] > 0 {
      assert sorted[k] in multiset(sizes);
    }
    assert RegionList(cells, p, seeds, sizes) by {
      forall x | x in PiecesOf(cells, p) ensures InSomeRegion(cells, p, seeds, x) {
        assert x in Part(cells, m, p);
      }
    }
    RegionListContiguous(cells, p, seeds, sizes);
  }
}
