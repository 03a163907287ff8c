/** What one directional move does to a single row or column ("line"),
    read in scan order: index 0 is the end the tiles move towards.
    A cell holds 0 when empty, otherwise a tile value. */
module Lines {

  /** A run of n empty cells. */
  function Zeros(n: nat): (r: seq<int>)
    ensures |r| == n
    ensures forall i :: 0 <= i < n ==> r[i] == 0
  {
    seq(n, _ => 0)
  }

  function Last(t: seq<int>): int
    requires t != []
  {
    t[|t| - 1]
  }

  function Front(t: seq<int>): seq<int>
    requires t != []
  {
    t[..|t| - 1]
  }

  /** The tiles of a line in scan order, with the gaps left out. */
  function NonZero(s: seq<int>): (r: seq<int>)
    ensures |r| <= |s|
    ensures forall i :: 0 <= i < |r| ==> r[i] != 0
  {
    if s == [] then []
    else NonZero(Front(s)) + (if Last(s) == 0 then [] else [Last(s)])
  }

  /** Greedy merging from the near end: the first two tiles merge when they
      are equal, and a merged tile takes no further part in merging. */
  function Merge(t: seq<int>): (r: seq<int>)
    ensures |r| <= |t|
    ensures (forall i :: 0 <= i < |t| ==> t[i] != 0) ==> forall i :: 0 <= i < |r| ==> r[i] != 0
  {
    if |t| >= 2 && t[0] == t[1] then [2 * t[0]] + Merge(t[2..])
    else if t != [] then [t[0]] + Merge(t[1..])
    else []
  }

  /** Whether Merge leaves the last tile of t unpaired (so that a further
      equal tile appended to t would merge with it). */
  predicate Pending(t: seq<int>)
  {
    if |t| >= 2 && t[0] == t[1] then Pending(t[2..])
    else if |t| == 1 then true
    else if t != [] then Pending(t[1..])
    else false
  }

  /** The number of pairs Merge combines. */
  function Merges(t: seq<int>): nat
  {
    if |t| >= 2 && t[0] == t[1] then 1 + Merges(t[2..])
    else if t != [] then Merges(t[1..])
    else 0
  }

  /** Whether Merge combines a pair of v-tiles. */
  predicate MergesValue(t: seq<int>, v: int)
  {
    if |t| >= 2 && t[0] == t[1] then t[0] == v || MergesValue(t[2..], v)
    else if t != [] then MergesValue(t[1..], v)
    else false
  }

  /** The tile a next equal tile would merge with, 0 when there is none. */
  function Previous(t: seq<int>): int
  {
    if t != [] && Pending(t) then Last(t) else 0
  }

  /** The line after a move: the merged tiles packed at the near end,
      empty cells after them. */
  function Collapse(s: seq<int>): (r: seq<int>)
    ensures |r| == |s|
  {
    var m := Merge(NonZero(s));
    m + Zeros(|s| - |m|)
  }

  /** All tiles come before all empty cells. */
  ghost predicate Compact(s: seq<int>)
  {
    forall i, j :: 0 <= i < j < |s| && s[i] == 0 ==> s[j] == 0
  }

  /** Compact, and no tile is followed by an equal tile: nothing can slide
      and nothing can merge. */
  ghost predicate Packed(s: seq<int>)
  {
    Compact(s) && forall i :: 0 <= i < |s| - 1 && s[i] != 0 ==> s[i] != s[i + 1]
  }

  ghost predicate NoEqualPair(t: seq<int>)
  {
    forall i :: 0 <= i < |t| - 1 ==> t[i] != t[i + 1]
  }

  function Sum(s: seq<int>): int
  {
    if s == [] then 0 else s[0] + Sum(s[1..])
  }

  /** The number of tiles (non-empty cells) of a line. */
  function CountNZ(s: seq<int>): nat
  {
    if s == [] then 0 else (if s[0] != 0 then 1 else 0) + CountNZ(s[1..])
  }

  predicate IsPowerOfTwo(x: int)
    decreases if x < 0 then 0 else x
  {
    x == 1 || (x >= 2 && x % 2 == 0 && IsPowerOfTwo(x / 2))
  }

  /** A legal cell value: empty, or a power of two of at least 2 (spawning
      writes 2 or 4, and merging doubles). */
  predicate IsTile(x: int)
  {
    x == 0 || (x >= 2 && IsPowerOfTwo(x))
  }

  /** The result tiles are the input tiles taken in order, each one either
      alone or together with one equal neighbour, never more. */
  ghost predicate PairedFrom(t: seq<int>, m: seq<int>)
    decreases |t|
  {
    if t == [] then m == []
    else
      m != [] &&
      ((m[0] == t[0] && PairedFrom(t[1..], m[1..])) ||
       (|t| >= 2 && t[0] == t[1] && m[0] == t[0] + t[1] && PairedFrom(t[2..], m[1..])))
  }

  // ---------------------------------------------------------------------
  // Extending a line by one tile: the step the in-place scan performs.

  /** When the last tile is pending, it is the last result tile and no
      merge involved it. */
  lemma {:induction false} PendingLast(t: seq<int>)
    requires t != [] && Pending(t)
    ensures Merge(t) == Merge(Front(t)) + [Last(t)]
    ensures Merges(t) == Merges(Front(t))
    ensures forall v :: MergesValue(t, v) == MergesValue(Front(t), v)
    decreases |t|
  {
    if |t| == 1 {
    } else if t[0] == t[1] {
      assert |t| > 2;
      PendingLast(t[2..]);
      assert Front(t)[2..] == Front(t[2..]);
      assert Last(t[2..]) == Last(t);
    } else {
      PendingLast(t[1..]);
      assert Front(t)[1..] == Front(t[1..]);
      assert Last(t[1..]) == Last(t);
      if |t| > 2 {
        assert Front(t)[0] != Front(t)[1];
      }
    }
  }

  /** Appending tile x: it merges with the pending last tile when equal,
      otherwise it becomes a new result tile. */
  lemma {:induction false} MergeSnoc(t: seq<int>, x: int)
    ensures Merge(t + [x]) ==
      if t != [] && Pending(t) && Last(t) == x then Merge(Front(t)) + [2 * x] else Merge(t) + [x]
    decreases |t|, 1
  {
    if t == [] {
      assert t + [x] == [x];
    } else if |t| == 1 {
      assert (t + [x])[2..] == [];
      assert (t + [x])[1..] == [x];
    } else if t[0] == t[1] {
      MergeSnocPair(t, x);
    } else {
      MergeSnocSingle(t, x);
    }
  }

  /** MergeSnoc when the first two tiles of t merge with each other. */
  lemma {:induction false} MergeSnocPair(t: seq<int>, x: int)
    requires |t| >= 2 && t[0] == t[1]
    ensures Merge(t + [x]) ==
      if Pending(t) && Last(t) == x then Merge(Front(t)) + [2 * x] else Merge(t) + [x]
    decreases |t|, 0
  {
    assert (t + [x])[2..] == t[2..] + [x];
    MergeSnoc(t[2..], x);
    if t[2..] != [] {
      assert Last(t[2..]) == Last(t);
      assert Front(t)[2..] == Front(t[2..]);
      assert Front(t)[0] == Front(t)[1];
    }
  }

  /** MergeSnoc when the first tile of t stays on its own. */
  lemma {:induction false} MergeSnocSingle(t: seq<int>, x: int)
    requires |t| >= 2 && t[0] != t[1]
    ensures Merge(t + [x]) ==
      if Pending(t) && Last(t) == x then Merge(Front(t)) + [2 * x] else Merge(t) + [x]
    decreases |t|, 0
  {
    assert (t + [x])[1..] == t[1..] + [x];
    MergeSnoc(t[1..], x);
    assert Last(t[1..]) == Last(t);
    if Pending(t) && Last(t) == x {
      if |t| > 2 {
        assert Front(t)[1..] == Front(t[1..]);
        assert Front(t)[0] != Front(t)[1];
      } else {
        assert Front(t) == [t[0]];
      }
    }
  }

  /** After appending x, x is pending unless it merged. */
  lemma {:induction false} PendingSnoc(t: seq<int>, x: int)
    ensures Pending(t + [x]) == !(t != [] && Pending(t) && Last(t) == x)
    decreases |t|
  {
    if t == [] {
      assert t + [x] == [x];
    } else if |t| == 1 {
      assert (t + [x])[2..] == [];
      assert (t + [x])[1..] == [x];
    } else if t[0] == t[1] {
      assert (t + [x])[2..] == t[2..] + [x];
      PendingSnoc(t[2..], x);
      if t[2..] != [] {
        assert Last(t[2..]) == Last(t);
      }
    } else {
      assert (t + [x])[1..] == t[1..] + [x];
      PendingSnoc(t[1..], x);
      assert Last(t[1..]) == Last(t);
    }
  }

  /** Appending x adds one merge exactly when x merges with the pending tile. */
  lemma {:induction false} MergesSnoc(t: seq<int>, x: int)
    ensures Merges(t + [x]) == Merges(t) + (if t != [] && Pending(t) && Last(t) == x then 1 else 0)
    decreases |t|
  {
    if t == [] {
      assert t + [x] == [x];
    } else if |t| == 1 {
      assert (t + [x])[2..] == [];
      assert (t + [x])[1..] == [x];
    } else if t[0] == t[1] {
      assert (t + [x])[2..] == t[2..] + [x];
      MergesSnoc(t[2..], x);
      if t[2..] != [] {
        assert Last(t[2..]) == Last(t);
      }
    } else {
      assert (t + [x])[1..] == t[1..] + [x];
      MergesSnoc(t[1..], x);
      assert Last(t[1..]) == Last(t);
    }
  }

  /** Appending x merges a pair of v-tiles exactly when t already did, or x
      is a v-tile that merges with the pending tile. */
  lemma {:induction false} MergesValueSnoc(t: seq<int>, x: int, v: int)
    ensures MergesValue(t + [x], v) ==
            (MergesValue(t, v) || (t != [] && Pending(t) && Last(t) == x && x == v))
    decreases |t|
  {
    if t == [] {
      assert t + [x] == [x];
    } else if |t| == 1 {
      assert (t + [x])[2..] == [];
      assert (t + [x])[1..] == [x];
    } else if t[0] == t[1] {
      assert (t + [x])[2..] == t[2..] + [x];
      MergesValueSnoc(t[2..], x, v);
      if t[2..] != [] {
        assert Last(t[2..]) == Last(t);
      }
    } else {
      assert (t + [x])[1..] == t[1..] + [x];
      MergesValueSnoc(t[1..], x, v);
      assert Last(t[1..]) == Last(t);
    }
  }

  /** Removing the gaps of a one-longer prefix. */
  lemma NonZeroSnoc(s: seq<int>, k: nat)
    requires k < |s|
    ensures NonZero(s[..k + 1]) == NonZero(s[..k]) + (if s[k] == 0 then [] else [s[k]])
  {
    assert Front(s[..k + 1]) == s[..k];
  }

  // ---------------------------------------------------------------------
  // The state of a line while the in-place scan runs: after the first k
  // cells have been read, the merged tiles of those cells sit at the near
  // end, the rest of the scanned part is empty, and the unscanned cells
  // are as they were.

  /** The scanned part of the line after k cells. */
  function ScanPrefix(s: seq<int>, k: nat): (r: seq<int>)
    requires k <= |s|
    ensures |r| == k
  {
    var m := Merge(NonZero(s[..k]));
    m + Zeros(k - |m|)
  }

  /** The whole line after k cells. */
  function ScanState(s: seq<int>, k: nat): (r: seq<int>)
    requires k <= |s|
    ensures |r| == |s|
  {
    ScanPrefix(s, k) + s[k..]
  }

  /** The scan starts from the line itself and ends with its collapse. */
  lemma ScanBounds(s: seq<int>)
    ensures ScanState(s, 0) == s
    ensures ScanState(s, |s|) == Collapse(s)
    ensures ScanPrefix(s, |s|) == Collapse(s)
  {
    assert s[..0] == [];
    assert s[..|s|] == s;
  }

  /** Appending the same element keeps two sequences equal or unequal. */
  lemma SnocEqual(a: seq<int>, b: seq<int>, x: int)
    ensures a + [x] == b + [x] <==> a == b
  {
    if a + [x] == b + [x] {
      assert a == (a + [x])[..|a|];
    }
  }

  /** Scanning an empty cell changes nothing. */
  lemma ScanEmpty(s: seq<int>, k: nat)
    requires k < |s| && s[k] == 0
    ensures NonZero(s[..k + 1]) == NonZero(s[..k])
    ensures |Merge(NonZero(s[..k]))| <= k
    ensures ScanState(s, k)[k] == s[k]
    ensures ScanState(s, k + 1) == ScanState(s, k)
    ensures ScanPrefix(s, k + 1) == s[..k + 1] <==> ScanPrefix(s, k) == s[..k]
  {
    NonZeroSnoc(s, k);
    var t := NonZero(s[..k]);
    assert t + [] == t;
    var m := Merge(t);
    var z := Zeros(k - |m|);
    assert Zeros(k + 1 - |m|) == z + [0];
    var p := ScanPrefix(s, k + 1);
    assert p == m + (z + [0]);
    assert p == ScanPrefix(s, k) + [0];
    assert s[..k + 1] == s[..k] + [0];
    SnocEqual(ScanPrefix(s, k), s[..k], 0);
    assert s[k..] == [0] + s[k + 1..];
  }

  /** Scanning a tile equal to the pending one: they merge into the cell of
      the pending tile and the scanned cell empties. */
  lemma ScanCollide(s: seq<int>, k: nat)
    requires k < |s| && s[k] != 0 && Previous(NonZero(s[..k])) == s[k]
    ensures var b := |Merge(NonZero(s[..k]))|;
      0 < b <= k &&
      ScanState(s, k)[k] == s[k] &&
      ScanState(s, k)[b - 1] == s[k] &&
      |Merge(NonZero(s[..k + 1]))| == b &&
      Previous(NonZero(s[..k + 1])) == 0 &&
      ScanState(s, k + 1) == ScanState(s, k)[b - 1 := 2 * s[k]][k := 0] &&
      ScanPrefix(s, k + 1) != s[..k + 1]
  {
    var t, x := NonZero(s[..k]), s[k];
    NonZeroSnoc(s, k);
    MergeSnoc(t, x);
    PendingLast(t);
    PendingSnoc(t, x);
    var b := |Merge(t)|;
    assert Merge(t + [x]) == Merge(t)[b - 1 := 2 * x];
    var u := ScanState(s, k + 1);
    var w := ScanState(s, k)[b - 1 := 2 * x][k := 0];
    forall i | 0 <= i < |s|
      ensures u[i] == w[i]
    {
      if i < b {
      } else if i <= k {
        assert u[i] == 0;
      } else {
        assert u[i] == s[k + 1..][i - k - 1];
      }
    }
    assert u == w;
    assert ScanPrefix(s, k + 1)[k] == 0;
  }

  /** Scanning any other tile: it moves to the first free cell `b`, the
      scanned cell empties unless it is that cell, and it becomes pending. */
  lemma ScanSlide(s: seq<int>, k: nat)
    requires k < |s| && s[k] != 0 && Previous(NonZero(s[..k])) != s[k]
    ensures var b := |Merge(NonZero(s[..k]))|;
      b <= k &&
      ScanState(s, k)[k] == s[k] &&
      |Merge(NonZero(s[..k + 1]))| == b + 1 &&
      Previous(NonZero(s[..k + 1])) == s[k] &&
      (b == k ==> ScanState(s, k + 1) == ScanState(s, k) &&
                  (ScanPrefix(s, k + 1) == s[..k + 1] <==> ScanPrefix(s, k) == s[..k])) &&
      (b < k ==> ScanState(s, k)[b] == 0 &&
                 ScanState(s, k + 1) == ScanState(s, k)[b := s[k]][k := 0] &&
                 ScanPrefix(s, k + 1) != s[..k + 1])
  {
    var t, x := NonZero(s[..k]), s[k];
    NonZeroSnoc(s, k);
    MergeSnoc(t, x);
    PendingSnoc(t, x);
    assert Last(t + [x]) == x;
    if |Merge(t)| == k {
      SlideInPlace(s, k);
    } else {
      SlideAway(s, k);
    }
  }

  /** ScanSlide when the free cell is the scanned cell itself. */
  lemma SlideInPlace(s: seq<int>, k: nat)
    requires k < |s| && |Merge(NonZero(s[..k]))| == k
    requires Merge(NonZero(s[..k + 1])) == Merge(NonZero(s[..k])) + [s[k]]
    ensures ScanState(s, k + 1) == ScanState(s, k)
    ensures ScanPrefix(s, k + 1) == s[..k + 1] <==> ScanPrefix(s, k) == s[..k]
  {
    var x := s[k];
    assert ScanPrefix(s, k + 1) == ScanPrefix(s, k) + [x];
    assert s[..k + 1] == s[..k] + [x];
    assert s[k..] == [x] + s[k + 1..];
  }

  /** ScanSlide when the free cell b lies before the scanned cell. */
  lemma SlideAway(s: seq<int>, k: nat)
    requires k < |s| && s[k] != 0 && |Merge(NonZero(s[..k]))| < k
    requires Merge(NonZero(s[..k + 1])) == Merge(NonZero(s[..k])) + [s[k]]
    ensures var b := |Merge(NonZero(s[..k]))|;
      ScanState(s, k)[b] == 0 &&
      ScanState(s, k + 1) == ScanState(s, k)[b := s[k]][k := 0] &&
      ScanPrefix(s, k + 1) != s[..k + 1]
  {
    var b, x := |Merge(NonZero(s[..k]))|, s[k];
    var u := ScanState(s, k + 1);
    var w := ScanState(s, k)[b := x][k := 0];
    forall i | 0 <= i < |s|
      ensures u[i] == w[i]
    {
      if i <= b {
      } else if i <= k {
        assert u[i] == 0;
      } else {
        assert u[i] == s[k + 1..][i - k - 1];
      }
    }
    assert u == w;
    assert ScanPrefix(s, k + 1)[k] == 0;
  }

  /** The variables of the in-place scan of one line: the next free slot,
      the last placed tile that has not merged yet (0 for none), the cells
      of the line, whether a cell was written, and the values of the tiles
      that merged. */
  datatype Progress = Progress(base: nat, previous: int, cells: seq<int>, moved: bool, merged: set<int>)

  /** One iteration of the scan, reading position k: an empty cell is
      skipped; a tile equal to `previous` merges into the cell before
      `base`; any other tile moves to `base` and becomes `previous`. */
  function Step(p: Progress, k: nat): (r: Progress)
    requires p.base <= k < |p.cells|
    requires p.previous != 0 ==> 0 < p.base
    ensures |r.cells| == |p.cells| && p.base <= r.base <= p.base + 1
  {
    var square := p.cells[k];
    if square == 0 then p
    else if square == p.previous then
      Progress(p.base, 0, p.cells[p.base - 1 := p.previous * 2][k := 0], true, p.merged + {square})
    else if k != p.base then
      Progress(p.base + 1, square, p.cells[p.base := square][k := 0], true, p.merged)
    else
      Progress(p.base + 1, square, p.cells, p.moved, p.merged)
  }

  /** The scan after its first k iterations. The free slot never passes
      the read position and the pending tile sits just before it. */
  function Scan(s: seq<int>, k: nat): (r: Progress)
    requires k <= |s|
    ensures |r.cells| == |s| && r.base <= k
    ensures r.previous != 0 ==> 0 < r.base && r.cells[r.base - 1] == r.previous
  {
    if k == 0 then Progress(0, 0, s, false, {})
    else Step(Scan(s, k - 1), k - 1)
  }

  /** What one scan step relies on when it reads position k: the free slot
      has not passed k, the pending tile sits just before the free slot, and
      the free slot is empty unless it is position k itself. */
  ghost predicate Ready(p: Progress, k: nat)
  {
    p.base <= k < |p.cells| &&
    (p.previous != 0 ==> 0 < p.base && p.cells[p.base - 1] == p.previous) &&
    (p.base < k ==> p.cells[p.base] == 0)
  }

  lemma ScanReady(s: seq<int>, k: nat)
    requires k < |s|
    ensures Ready(Scan(s, k), k)
  {
    ScanFrame(s, k);
  }

  /** During the scan the cells between the free slot and the read position
      are empty, and unread cells are untouched. */
  lemma {:induction false} ScanFrame(s: seq<int>, k: nat)
    requires k <= |s|
    ensures forall i :: Scan(s, k).base <= i < k ==> Scan(s, k).cells[i] == 0
    ensures forall i :: k <= i < |s| ==> Scan(s, k).cells[i] == s[i]
  {
    if k > 0 {
      ScanFrame(s, k - 1);
    }
  }

  /** The scan variables after k iterations agree with the merge of the
      tiles read so far. */
  ghost predicate Agrees(s: seq<int>, k: nat, p: Progress)
    requires k <= |s|
  {
    p.cells == ScanState(s, k) &&
    p.base == |Merge(NonZero(s[..k]))| &&
    p.previous == Previous(NonZero(s[..k])) &&
    (p.moved <==> ScanPrefix(s, k) != s[..k]) &&
    forall v :: v in p.merged <==> MergesValue(NonZero(s[..k]), v)
  }

  /** Reading position k adds the value v to the merged ones exactly when
      a v-tile collides with the pending v-tile. */
  lemma ScanMerged(s: seq<int>, k: nat, v: int)
    requires k < |s|
    ensures MergesValue(NonZero(s[..k + 1]), v) ==
      (MergesValue(NonZero(s[..k]), v) || (s[k] != 0 && Previous(NonZero(s[..k])) == s[k] && s[k] == v))
  {
    var t := NonZero(s[..k]);
    NonZeroSnoc(s, k);
    if s[k] == 0 {
      assert t + [] == t;
    } else {
      MergesValueSnoc(t, s[k], v);
    }
  }

  /** When position k collides with the pending tile, the merged values
      gain exactly s[k]. */
  lemma CollideMerged(s: seq<int>, k: nat, merged: set<int>)
    requires k < |s| && s[k] != 0 && Previous(NonZero(s[..k])) == s[k]
    requires forall v :: v in merged <==> MergesValue(NonZero(s[..k]), v)
    ensures forall v :: v in merged + {s[k]} <==> MergesValue(NonZero(s[..k + 1]), v)
  {
    forall v
      ensures v in merged + {s[k]} <==> MergesValue(NonZero(s[..k + 1]), v)
    {
      ScanMerged(s, k, v);
    }
  }

  lemma StepEmpty(s: seq<int>, j: nat)
    requires j < |s| && s[j] == 0 && Agrees(s, j, Scan(s, j))
    ensures Agrees(s, j + 1, Scan(s, j + 1))
  {
    ScanEmpty(s, j);
  }

  lemma StepCollide(s: seq<int>, j: nat)
    requires j < |s| && s[j] != 0 && Agrees(s, j, Scan(s, j))
    requires s[j] == Scan(s, j).previous
    ensures Agrees(s, j + 1, Scan(s, j + 1))
  {
    var p := Scan(s, j);
    assert p.cells[j] == s[j];
    ScanCollide(s, j);
    CollideMerged(s, j, p.merged);
    StepCollideFields(p, j);
  }

  /** The fields after the collide branch of Step. */
  lemma StepCollideFields(p: Progress, k: nat)
    requires p.base <= k < |p.cells| && 0 < p.base
    requires p.cells[k] != 0 && p.cells[k] == p.previous
    ensures Step(p, k) == Progress(p.base, 0, p.cells[p.base - 1 := 2 * p.cells[k]][k := 0], true, p.merged + {p.cells[k]})
  {
  }

  lemma StepSlide(s: seq<int>, j: nat)
    requires j < |s| && s[j] != 0 && Agrees(s, j, Scan(s, j))
    requires s[j] != Scan(s, j).previous
    ensures Agrees(s, j + 1, Scan(s, j + 1))
  {
    var k, r := j + 1, Scan(s, j + 1);
    forall v
      ensures v in r.merged <==> MergesValue(NonZero(s[..k]), v)
    {
      ScanMerged(s, j, v);
    }
    ScanSlide(s, j);
  }

  /** The scan computes the collapse step by step. */
  lemma {:induction false} ScanCorrect(s: seq<int>, k: nat)
    requires k <= |s|
    ensures Agrees(s, k, Scan(s, k))
  {
    if k == 0 {
      ScanBounds(s);
      assert s[..0] == [];
    } else {
      var j := k - 1;
      ScanCorrect(s, j);
      if s[j] == 0 {
        StepEmpty(s, j);
      } else if s[j] == Scan(s, j).previous {
        StepCollide(s, j);
      } else {
        StepSlide(s, j);
      }
    }
  }

  /** The whole scan yields the collapsed line, reports a change exactly
      when the line changes, and records exactly the merged values. */
  lemma ScanComplete(s: seq<int>)
    ensures Scan(s, |s|).cells == Collapse(s)
    ensures Scan(s, |s|).moved <==> Collapse(s) != s
    ensures forall v :: v in Scan(s, |s|).merged <==> MergesValue(NonZero(s), v)
  {
    ScanCorrect(s, |s|);
    ScanBounds(s);
    assert s[..|s|] == s;
  }

  // ---------------------------------------------------------------------
  // Properties of a collapsed line.

  /** After a move every tile sits before every empty cell. */
  lemma CollapseCompact(s: seq<int>)
    ensures Compact(Collapse(s))
  {
    var m := Merge(NonZero(s));
    assert forall i :: 0 <= i < |m| ==> m[i] != 0;
  }

  lemma {:induction false} SumConcat(a: seq<int>, b: seq<int>)
    ensures Sum(a + b) == Sum(a) + Sum(b)
  {
    if a == [] {
      assert a + b == b;
    } else {
      assert (a + b)[1..] == a[1..] + b;
      SumConcat(a[1..], b);
    }
  }

  lemma {:induction false} SumZeros(n: nat)
    ensures Sum(Zeros(n)) == 0
  {
    if n > 0 {
      assert Zeros(n)[1..] == Zeros(n - 1);
      SumZeros(n - 1);
    }
  }

  lemma {:induction false} SumNonZero(s: seq<int>)
    ensures Sum(NonZero(s)) == Sum(s)
  {
    if s != [] {
      SumNonZero(Front(s));
      assert s == Front(s) + [Last(s)];
      SumConcat(Front(s), [Last(s)]);
      SumConcat(NonZero(Front(s)), if Last(s) == 0 then [] else [Last(s)]);
    }
  }

  lemma {:induction false} SumMerge(t: seq<int>)
    ensures Sum(Merge(t)) == Sum(t)
  {
    if |t| >= 2 && t[0] == t[1] {
      SumMerge(t[2..]);
      assert ([2 * t[0]] + Merge(t[2..]))[1..] == Merge(t[2..]);
      assert t[1..][1..] == t[2..];
    } else if t != [] {
      SumMerge(t[1..]);
      assert ([t[0]] + Merge(t[1..]))[1..] == Merge(t[1..]);
    }
  }

  /** A move keeps the total value of each line: a merge turns v + v into 2v,
      a slide moves a tile without changing it. */
  lemma CollapseSum(s: seq<int>)
    ensures Sum(Collapse(s)) == Sum(s)
  {
    var m := Merge(NonZero(s));
    SumConcat(m, Zeros(|s| - |m|));
    SumZeros(|s| - |m|);
    SumMerge(NonZero(s));
    SumNonZero(s);
  }

  lemma {:induction false} MergeTiles(t: seq<int>)
    requires forall i :: 0 <= i < |t| ==> IsTile(t[i])
    ensures forall i :: 0 <= i < |Merge(t)| ==> IsTile(Merge(t)[i])
  {
    if |t| >= 2 && t[0] == t[1] {
      MergeTiles(t[2..]);
      var x := t[0];
      if x != 0 {
        assert (2 * x) / 2 == x;
        assert IsPowerOfTwo(2 * x);
      }
      assert forall i :: 1 <= i < |Merge(t)| ==> Merge(t)[i] == Merge(t[2..])[i - 1];
    } else if t != [] {
      MergeTiles(t[1..]);
      assert forall i :: 1 <= i < |Merge(t)| ==> Merge(t)[i] == Merge(t[1..])[i - 1];
    }
  }

  lemma {:induction false} NonZeroTiles(s: seq<int>)
    requires forall i :: 0 <= i < |s| ==> IsTile(s[i])
    ensures forall i :: 0 <= i < |NonZero(s)| ==> IsTile(NonZero(s)[i])
  {
    if s != [] {
      NonZeroTiles(Front(s));
    }
  }

  /** A move turns a line of powers of two into a line of powers of two. */
  lemma CollapseTiles(s: seq<int>)
    requires forall i :: 0 <= i < |s| ==> IsTile(s[i])
    ensures forall i :: 0 <= i < |s| ==> IsTile(Collapse(s)[i])
  {
    NonZeroTiles(s);
    MergeTiles(NonZero(s));
  }

  /** No tile takes part in two merges: [2,2,2,2] becomes [4,4], not [8]. */
  lemma {:induction false} MergePairedFrom(t: seq<int>)
    ensures PairedFrom(t, Merge(t))
  {
    if |t| >= 2 && t[0] == t[1] {
      MergePairedFrom(t[2..]);
      assert Merge(t)[1..] == Merge(t[2..]);
    } else if t != [] {
      MergePairedFrom(t[1..]);
      assert Merge(t)[1..] == Merge(t[1..]);
    }
  }

  lemma {:induction false} MergeLength(t: seq<int>)
    ensures |Merge(t)| + Merges(t) == |t|
  {
    if |t| >= 2 && t[0] == t[1] {
      MergeLength(t[2..]);
    } else if t != [] {
      MergeLength(t[1..]);
    }
  }

  lemma {:induction false} CountConcat(a: seq<int>, b: seq<int>)
    ensures CountNZ(a + b) == CountNZ(a) + CountNZ(b)
  {
    if a == [] {
      assert a + b == b;
    } else {
      assert (a + b)[1..] == a[1..] + b;
      CountConcat(a[1..], b);
    }
  }

  lemma CountNZSnoc(s: seq<int>, k: nat)
    requires k < |s|
    ensures CountNZ(s[..k + 1]) == CountNZ(s[..k]) + (if s[k] != 0 then 1 else 0)
  {
    assert s[..k + 1] == s[..k] + [s[k]];
    CountConcat(s[..k], [s[k]]);
  }

  lemma {:induction false} CountAllNonZero(s: seq<int>)
    requires forall i :: 0 <= i < |s| ==> s[i] != 0
    ensures CountNZ(s) == |s|
  {
    if s != [] {
      CountAllNonZero(s[1..]);
    }
  }

  lemma {:induction false} CountZeros(n: nat)
    ensures CountNZ(Zeros(n)) == 0
  {
    if n > 0 {
      assert Zeros(n)[1..] == Zeros(n - 1);
      CountZeros(n - 1);
    }
  }

  lemma {:induction false} CountNonZero(s: seq<int>)
    ensures |NonZero(s)| == CountNZ(s)
  {
    if s != [] {
      CountNonZero(Front(s));
      assert s == Front(s) + [Last(s)];
      CountConcat(Front(s), [Last(s)]);
    }
  }

  /** Each merge removes exactly one tile from the line, slides remove none. */
  lemma CollapseCount(s: seq<int>)
    ensures CountNZ(Collapse(s)) == CountNZ(s) - Merges(NonZero(s))
  {
    var m := Merge(NonZero(s));
    CountConcat(m, Zeros(|s| - |m|));
    CountZeros(|s| - |m|);
    CountAllNonZero(m);
    MergeLength(NonZero(s));
    CountNonZero(s);
  }

  /** Merging a pair of v-tiles leaves a 2v-tile in the result. */
  lemma {:induction false} MergesValueResult(t: seq<int>, v: int)
    requires MergesValue(t, v)
    ensures 2 * v in Merge(t)
  {
    if |t| >= 2 && t[0] == t[1] {
      if t[0] != v {
        MergesValueResult(t[2..], v);
      }
    } else if t != [] {
      MergesValueResult(t[1..], v);
    }
  }

  // ---------------------------------------------------------------------
  // When a move leaves a line unchanged.

  lemma {:induction false} MergeNoPair(t: seq<int>)
    requires NoEqualPair(t)
    ensures Merge(t) == t
  {
    if |t| >= 2 {
      assert t[0] != t[1];
      MergeNoPair(t[1..]);
    } else if t != [] {
      MergeNoPair(t[1..]);
    }
  }

  lemma {:induction false} MergesZero(t: seq<int>)
    requires Merges(t) == 0
    ensures NoEqualPair(t)
  {
    if |t| >= 2 {
      MergesZero(t[1..]);
    }
  }

  lemma {:induction false} NonZeroAll(t: seq<int>)
    requires forall i :: 0 <= i < |t| ==> t[i] != 0
    ensures NonZero(t) == t
  {
    if t != [] {
      NonZeroAll(Front(t));
    }
  }

  lemma {:induction false} NonZeroPadded(t: seq<int>, n: nat)
    requires forall i :: 0 <= i < |t| ==> t[i] != 0
    ensures NonZero(t + Zeros(n)) == t
  {
    if n == 0 {
      assert t + Zeros(n) == t;
      NonZeroAll(t);
    } else {
      assert Front(t + Zeros(n)) == t + Zeros(n - 1);
      NonZeroPadded(t, n - 1);
    }
  }

  /** A compact line is its leading block of tiles followed by empty cells. */
  lemma CompactSplit(s: seq<int>) returns (m: nat)
    requires Compact(s)
    ensures m <= |s| && s == s[..m] + Zeros(|s| - m)
    ensures forall i :: 0 <= i < m ==> s[i] != 0
  {
    m := 0;
    while m < |s| && s[m] != 0
      invariant m <= |s|
      invariant forall i :: 0 <= i < m ==> s[i] != 0
    {
      m := m + 1;
    }
    assert forall i :: m <= i < |s| ==> s[i] == 0;
  }

  /** A move leaves a line unchanged exactly when the line is packed: no gap
      before a tile and no two equal tiles next to each other. */
  lemma CollapseUnchanged(s: seq<int>)
    ensures Collapse(s) == s <==> Packed(s)
  {
    var t := NonZero(s);
    if Packed(s) {
      var m := CompactSplit(s);
      NonZeroPadded(s[..m], |s| - m);
      assert t == s[..m];
      assert NoEqualPair(t);
      MergeNoPair(t);
    }
    if Collapse(s) == s {
      CollapseCompact(s);
      CollapseCount(s);
      CountNonZero(s);
      var m := Merge(t);
      CountConcat(m, Zeros(|s| - |m|));
      CountZeros(|s| - |m|);
      CountAllNonZero(m);
      MergeLength(t);
      MergesZero(t);
      MergeNoPair(t);
      assert s == t + Zeros(|s| - |t|);
      forall i | 0 <= i < |s| - 1 && s[i] != 0
        ensures s[i] != s[i + 1]
      {
        if i + 1 < |t| {
          assert s[i] == t[i] && s[i + 1] == t[i + 1];
        }
      }
    }
  }

  // ---------------------------------------------------------------------
  // Worked examples of single moves.

  lemma SlideAndMerge()
    ensures Collapse([2, 2, 4, 0]) == [4, 4, 0, 0]
  {
    assert NonZero([2, 2, 4, 0]) == [2, 2, 4] by {
      assert Front([2, 2, 4, 0]) == [2, 2, 4];
      assert Front([2, 2, 4]) == [2, 2];
      assert Front([2, 2]) == [2];
      assert Front([2]) == [];
    }
    assert Merge([2, 2, 4]) == [4, 4] by {
      assert [2, 2, 4][2..] == [4];
      assert [4][1..] == [];
      var t := [2, 2, 4];
      assert |t| >= 2 && t[0] == t[1];
      assert Merge(t) == [2 * t[0]] + Merge(t[2..]);
      assert Merge([4]) == [4] + Merge([]);
    }
  }

  lemma MergeOnce()
    ensures Collapse([2, 2, 2, 2]) == [4, 4, 0, 0]
  {
    assert NonZero([2, 2, 2, 2]) == [2, 2, 2, 2] by {
      NonZeroAll([2, 2, 2, 2]);
    }
    assert Merge([2, 2, 2, 2]) == [4, 4] by {
      assert [2, 2, 2, 2][2..] == [2, 2];
      assert [2, 2][2..] == [];
    }
  }
}
