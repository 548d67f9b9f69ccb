/** The in-place matrix surgery of `merge` and its four zone helpers
    (lib/traversals.js, inside `mergeTransferNodes`). The working copy of
    the matrix and the stop list are the two variables those inner
    functions update; here they are the fields of a `MatrixSurgery`. */
module Surgery {
  import opened Wrappers
  import opened Seqs
  import opened Graph
  import opened EdgeMerge
  import opened Contraction
  import Stops

  /** A cell of the working copy. `Empty` is the source's `0` or `null`,
      `Stale` its `-1` marker for a cell that is to be removed, `Filled` an
      edge. */
  datatype Slot = Empty | Stale | Filled(edge: Edge)

  /** How the source reads a non-marker cell as an optional edge. */
  function AsCell(s: Slot): (c: Cell)
    requires s != Stale
    ensures c.Some? <==> s.Filled?
  {
    if s.Filled? then Some(s.edge) else None
  }

  function AsSlot(c: Cell): (s: Slot)
    ensures s != Stale && AsCell(s) == c
  {
    if c.Some? then Filled(c.value) else Empty
  }

  /** The copy of a graph's matrix the surgery starts from (`makeCopy`). */
  function SlotsOf(m: seq<seq<Cell>>): (r: seq<seq<Slot>>)
    ensures |r| == |m|
    ensures forall i :: 0 <= i < |m| ==> |r[i]| == |m[i]|
    ensures forall i, j :: 0 <= i < |m| && 0 <= j < |m[i]| ==> r[i][j] == AsSlot(m[i][j])
  {
    seq(|m|, i requires 0 <= i < |m| => seq(|m[i]|, j requires 0 <= j < |m[i]| => AsSlot(m[i][j])))
  }

  predicate NoStale(m: seq<seq<Slot>>) {
    forall i, j :: 0 <= i < |m| && 0 <= j < |m[i]| ==> m[i][j] != Stale
  }

  /** The edges of a marker-free working copy. */
  function CellsOf(m: seq<seq<Slot>>): (r: seq<seq<Cell>>)
    requires NoStale(m)
    ensures |r| == |m|
    ensures forall i :: 0 <= i < |m| ==> |r[i]| == |m[i]|
    ensures forall i, j :: 0 <= i < |m| && 0 <= j < |m[i]| ==> r[i][j] == AsCell(m[i][j])
  {
    seq(|m|, i requires 0 <= i < |m| => seq(|m[i]|, j requires 0 <= j < |m[i]| => AsCell(m[i][j])))
  }

  lemma CellsOfSlotsOf(m: seq<seq<Cell>>)
    ensures NoStale(SlotsOf(m)) && CellsOf(SlotsOf(m)) == m
  {
    var r := CellsOf(SlotsOf(m));
    forall i | 0 <= i < |m|
      ensures r[i] == m[i]
    {
    }
  }

  /** `mergeEdges` applied to two cells of the working copy; neither may be
      a `-1` marker. */
  function MergeSlots(a: Slot, b: Slot): (r: Slot)
    requires a != Stale && b != Stale
    ensures r != Stale
  {
    AsSlot(MergeEdges(AsCell(a), AsCell(b)))
  }

  /** JavaScript's `row[i] = x` for `i <= row.length`: overwrites a cell, or
      appends one when `i` is the row's length. */
  function Store(row: seq<Slot>, i: nat, x: Slot): (r: seq<Slot>)
    requires i <= |row|
    ensures |r| == if i < |row| then |row| else |row| + 1
    ensures r[i] == x
    ensures forall k :: 0 <= k < |row| && k != i ==> r[k] == row[k]
  {
    if i < |row| then row[i := x] else row + [x]
  }

  /** The row without its `-1` markers. */
  function RemoveStale(row: seq<Slot>): (r: seq<Slot>)
    ensures Stale !in r
    ensures |r| <= |row|
  {
    if row == [] then []
    else if row[0] == Stale then RemoveStale(row[1..])
    else [row[0]] + RemoveStale(row[1..])
  }

  lemma {:induction false} RemoveStaleAppend(a: seq<Slot>, b: seq<Slot>)
    ensures RemoveStale(a + b) == RemoveStale(a) + RemoveStale(b)
  {
    if a != [] {
      RemoveStaleAppend(a[1..], b);
      assert (a + b)[1..] == a[1..] + b;
    } else {
      assert a + b == b;
    }
  }

  lemma {:induction false} RemoveStaleOfClean(a: seq<Slot>)
    requires Stale !in a
    ensures RemoveStale(a) == a
  {
    if a != [] {
      RemoveStaleOfClean(a[1..]);
    }
  }

  /** `row.indexOf(-1)` for a row that holds a marker. */
  function FirstMarker(row: seq<Slot>): (k: nat)
    requires Stale in row
    ensures k < |row| && row[k] == Stale
    ensures forall j :: 0 <= j < k ==> row[j] != Stale
  {
    if row[0] == Stale then 0 else 1 + FirstMarker(row[1..])
  }

  /** Splicing out a marker does not change what stripping leaves. */
  lemma {:induction false} RemoveStaleDrop(row: seq<Slot>, k: nat)
    requires k < |row| && row[k] == Stale
    ensures RemoveStale(Splice(row, k)) == RemoveStale(row)
  {
    assert row == row[..k] + ([Stale] + row[k + 1..]);
    RemoveStaleAppend(row[..k], [Stale] + row[k + 1..]);
    RemoveStaleAppend(row[..k], row[k + 1..]);
    assert RemoveStale([Stale] + row[k + 1..]) == RemoveStale(row[k + 1..]) by {
      assert ([Stale] + row[k + 1..])[1..] == row[k + 1..];
    }
  }

  /** Splicing out the first marker does not change what stripping leaves. */
  lemma SpliceFirstStale(row: seq<Slot>)
    requires Stale in row
    ensures RemoveStale(Splice(row, FirstMarker(row))) == RemoveStale(row)
  {
    RemoveStaleDrop(row, FirstMarker(row));
  }

  function StripRows(g: seq<seq<Slot>>): (r: seq<seq<Slot>>)
    ensures |r| == |g|
  {
    seq(|g|, i requires 0 <= i < |g| => if i < |g| - 1 then RemoveStale(g[i]) else g[i])
  }

  // ---- The state the surgery works in ----

  /** The matrix rows below `u` are triangular and row `u` is the union row
      under construction. */
  predicate Shaped(g: seq<seq<Slot>>, u: nat) {
    |g| == u + 1 && forall r :: 0 <= r < u ==> |g[r]| == r
  }

  /** The cells `row[a..b]` are no markers. */
  predicate CleanBetween(row: seq<Slot>, a: int, b: int) {
    forall c :: 0 <= a <= c < b <= |row| ==> row[c] != Stale
  }

  /** `horizontalOverlap`: for `c < lo` the union cell combines `(lo, c)` and
      `(hi, c)`, and row `lo` is marked throughout. */
  ghost predicate HorizontalOverlapStep(g: seq<seq<Slot>>, g': seq<seq<Slot>>, lo: nat, hi: nat, u: nat)
    requires Shaped(g, u) && lo < hi < u && lo <= |g[u]|
    requires CleanBetween(g[lo], 0, lo) && CleanBetween(g[hi], 0, lo)
  {
    && |g'| == |g|
    && (forall r :: 0 <= r < |g| && r != lo && r != u ==> g'[r] == g[r])
    && g'[lo] == seq(lo, _ => Stale)
    && |g'[u]| == |g[u]|
    && (forall c :: 0 <= c < |g[u]| ==> g'[u][c] == if c < lo then MergeSlots(g[lo][c], g[hi][c]) else g[u][c])
  }

  /** `horizontalHiOvershoot`: for `lo < c < hi` the union cell is `(hi, c)`
      merged with the placeholder `0`, and row `hi` is marked throughout. */
  ghost predicate HorizontalHiOvershootStep(g: seq<seq<Slot>>, g': seq<seq<Slot>>, lo: nat, hi: nat, u: nat)
    requires Shaped(g, u) && lo < hi < u && hi <= |g[u]|
    requires CleanBetween(g[hi], lo + 1, hi)
  {
    && |g'| == |g|
    && (forall r :: 0 <= r < |g| && r != hi && r != u ==> g'[r] == g[r])
    && g'[hi] == seq(hi, _ => Stale)
    && |g'[u]| == |g[u]|
    && (forall c :: 0 <= c < |g[u]| ==> g'[u][c] == if lo < c < hi then MergeSlots(g[hi][c], Empty) else g[u][c])
  }

  /** `verticalOverlap`: for `hi < c < u` the union cell combines `(c, lo)` and
      `(c, hi)`, both of which are marked; the union row grows to `u` cells
      when there is such a `c`. */
  ghost predicate VerticalOverlapStep(g: seq<seq<Slot>>, g': seq<seq<Slot>>, lo: nat, hi: nat, u: nat)
    requires Shaped(g, u) && lo < hi < u && |g[u]| == u - 1
    requires forall r :: hi < r < u ==> g[r][lo] != Stale && g[r][hi] != Stale
  {
    && |g'| == |g|
    && (forall r :: 0 <= r < u && !(hi < r) ==> g'[r] == g[r])
    && (forall r :: hi < r < u ==> g'[r] == g[r][lo := Stale][hi := Stale])
    && |g'[u]| == (if hi + 1 < u then u else u - 1)
    && (forall c :: 0 <= c < |g'[u]| ==> g'[u][c] == if hi < c then MergeSlots(g[c][lo], g[c][hi]) else g[u][c])
  }

  /** `verticalOverlap` after the rows below `i`. */
  ghost predicate VerticalOverlapUpTo(g: seq<seq<Slot>>, n: seq<seq<Slot>>, lo: nat, hi: nat, u: nat, i: nat)
    requires Shaped(g, u) && lo < hi < u && |g[u]| == u - 1 && hi < i <= u
    requires forall r :: hi < r < u ==> g[r][lo] != Stale && g[r][hi] != Stale
  {
    && |n| == |g|
    && (forall r :: 0 <= r < u && !(hi < r < i) ==> n[r] == g[r])
    && (forall r :: hi < r < i ==> n[r] == g[r][lo := Stale][hi := Stale])
    && |n[u]| == (if i == u && hi + 1 < u then u else u - 1)
    && (forall c :: 0 <= c < |n[u]| ==> n[u][c] == if hi < c < i then MergeSlots(g[c][lo], g[c][hi]) else g[u][c])
  }

  /** One row of `verticalOverlap`. */
  lemma VerticalOverlapAdvance(g: seq<seq<Slot>>, n: seq<seq<Slot>>, n': seq<seq<Slot>>, lo: nat, hi: nat, u: nat, i: nat)
    requires Shaped(g, u) && lo < hi < u && |g[u]| == u - 1 && hi < i < u
    requires forall r :: hi < r < u ==> g[r][lo] != Stale && g[r][hi] != Stale
    requires VerticalOverlapUpTo(g, n, lo, hi, u, i)
    requires n' == n[u := Store(n[u], i, MergeSlots(n[i][lo], n[i][hi]))][i := Store(Store(n[i], lo, Stale), hi, Stale)]
    ensures VerticalOverlapUpTo(g, n', lo, hi, u, i + 1)
  {
    assert n[i] == g[i];
  }

  /** `verticalLoOvershoot`: for `lo < c < hi` the union cell is `(c, lo)`
      merged with what the union cell held, and `(c, lo)` is marked. */
  ghost predicate VerticalLoOvershootStep(g: seq<seq<Slot>>, g': seq<seq<Slot>>, lo: nat, hi: nat, u: nat)
    requires Shaped(g, u) && lo < hi < u && hi <= |g[u]|
    requires forall r :: lo < r < hi ==> g[r][lo] != Stale
    requires CleanBetween(g[u], lo + 1, hi)
  {
    && |g'| == |g|
    && (forall r :: 0 <= r < u && !(lo < r < hi) ==> g'[r] == g[r])
    && (forall r :: lo < r < hi ==> g'[r] == g[r][lo := Stale])
    && |g'[u]| == |g[u]|
    && (forall c :: 0 <= c < |g[u]| ==> g'[u][c] == if lo < c < hi then MergeSlots(g[c][lo], g[u][c]) else g[u][c])
  }

  /** `verticalLoOvershoot` after the rows below `i`. */
  ghost predicate VerticalLoOvershootUpTo(g: seq<seq<Slot>>, n: seq<seq<Slot>>, lo: nat, hi: nat, u: nat, i: nat)
    requires Shaped(g, u) && lo < hi < u && hi <= |g[u]| && lo < i <= hi
    requires forall r :: lo < r < hi ==> g[r][lo] != Stale
    requires CleanBetween(g[u], lo + 1, hi)
  {
    && |n| == |g|
    && (forall r :: 0 <= r < u && !(lo < r < i) ==> n[r] == g[r])
    && (forall r :: lo < r < i ==> n[r] == g[r][lo := Stale])
    && |n[u]| == |g[u]|
    && (forall c :: 0 <= c < |g[u]| ==> n[u][c] == if lo < c < i then MergeSlots(g[c][lo], g[u][c]) else g[u][c])
  }

  /** One row of `verticalLoOvershoot`. */
  lemma VerticalLoOvershootAdvance(g: seq<seq<Slot>>, n: seq<seq<Slot>>, n': seq<seq<Slot>>, lo: nat, hi: nat, u: nat, i: nat)
    requires Shaped(g, u) && lo < hi < u && hi <= |g[u]| && lo < i < hi
    requires forall r :: lo < r < hi ==> g[r][lo] != Stale
    requires CleanBetween(g[u], lo + 1, hi)
    requires VerticalLoOvershootUpTo(g, n, lo, hi, u, i)
    requires n' == n[u := Store(n[u], i, MergeSlots(n[i][lo], n[u][i]))][i := Store(n[i], lo, Stale)]
    ensures VerticalLoOvershootUpTo(g, n', lo, hi, u, i + 1)
  {
    assert n[i] == g[i];
    assert n[u][i] == g[u][i];
  }

  /** The matrix after the four helpers, cell by cell: every cell of row or
      column `lo` or `hi` is marked, the others are untouched, and the union
      row holds the merged edge to every other node. */
  ghost predicate Zoned(m: seq<seq<Cell>>, z: seq<seq<Slot>>, lo: nat, hi: nat)
    requires Triangular(m) && lo < hi < |m|
  {
    var u := |m|;
    && Shaped(z, u)
    && (forall r, c :: 0 <= c < r < u ==>
          z[r][c] == if r in {lo, hi} || c in {lo, hi} then Stale else AsSlot(m[r][c]))
    && |z[u]| == (if hi + 1 < u then u else u - 1)
    && (forall c :: 0 <= c < |z[u]| ==>
          z[u][c] == if c in {lo, hi} then Empty else AsSlot(UnionCell(m, lo, hi, c)))
  }

  // ---- Why the surgery computes the contraction ----

  /** The two splices `s.splice(lo, 1); s.splice(hi - 1, 1)` drop the
      elements at `lo` and `hi` where they exist, and what is left is `s`
      read through the renumbering. */
  function SpliceBoth<T>(s: seq<T>, lo: nat, hi: nat): seq<T>
    requires lo < hi
  {
    Splice(Splice(s, lo), hi - 1)
  }

  lemma SpliceBothRenumbers<T>(s: seq<T>, lo: nat, hi: nat)
    requires lo < hi
    ensures |SpliceBoth(s, lo, hi)| == |s| - (if hi < |s| then 2 else if lo < |s| then 1 else 0)
    ensures forall i :: 0 <= i < |SpliceBoth(s, lo, hi)| ==> OldIndex(i, lo, hi) < |s| && SpliceBoth(s, lo, hi)[i] == s[OldIndex(i, lo, hi)]
  {
    var t := Splice(s, lo);
    var w := Splice(t, hi - 1);
    assert |t| == if lo < |s| then |s| - 1 else |s|;
    forall i | 0 <= i < |w|
      ensures OldIndex(i, lo, hi) < |s| && w[i] == s[OldIndex(i, lo, hi)]
    {
      var j := if hi - 1 < |t| && i >= hi - 1 then i + 1 else i;
      assert w[i] == t[j];
      if lo < |s| {
        assert t[j] == if j < lo then s[j] else s[j + 1];
      }
    }
  }

  /** A row whose markers sit exactly at `lo` and `hi` (where the row
      reaches) has none left once those two cells are spliced out. */
  lemma SpliceBothClean(s: seq<Slot>, lo: nat, hi: nat)
    requires lo < hi
    requires forall c :: 0 <= c < |s| ==> (s[c] == Stale <==> c == lo || c == hi)
    ensures Stale !in SpliceBoth(s, lo, hi)
  {
    SpliceBothRenumbers(s, lo, hi);
  }

  /** Stripping a row whose markers sit exactly at `lo` and `hi` (where the
      row reaches) is the same as splicing those two cells out. */
  lemma {:induction false} RemoveStaleMarked(s: seq<Slot>, lo: nat, hi: nat)
    requires lo < hi
    requires forall c :: 0 <= c < |s| ==> (s[c] == Stale <==> c == lo || c == hi)
    ensures RemoveStale(s) == SpliceBoth(s, lo, hi)
  {
    var t := Splice(s, lo);
    var w := Splice(t, hi - 1);
    if lo < |s| {
      RemoveStaleDrop(s, lo);
    }
    assert RemoveStale(t) == RemoveStale(s);
    if hi - 1 < |t| {
      assert t[hi - 1] == s[hi];
      RemoveStaleDrop(t, hi - 1);
    }
    assert RemoveStale(w) == RemoveStale(t);
    SpliceBothClean(s, lo, hi);
    RemoveStaleOfClean(w);
  }

  /** The matrix after the two horizontal helpers: rows `lo` and `hi` are
      marked, the union row holds the merged edge below `lo` and the
      placeholder merge between `lo` and `hi`. */
  ghost predicate HorizontalZoned(m: seq<seq<Cell>>, z: seq<seq<Slot>>, lo: nat, hi: nat)
    requires Triangular(m) && lo < hi < |m|
  {
    var u := |m|;
    && Shaped(z, u)
    && (forall r, c :: 0 <= c < r < u ==> z[r][c] == if r in {lo, hi} then Stale else AsSlot(m[r][c]))
    && |z[u]| == u - 1
    && (forall c :: 0 <= c < u - 1 ==>
          z[u][c] == if c < lo then AsSlot(UnionCell(m, lo, hi, c))
                     else if lo < c < hi then MergeSlots(AsSlot(m[hi][c]), Empty)
                     else Empty)
  }

  /** `horizontalOverlap` leaves what `horizontalHiOvershoot` needs. */
  lemma ReadyForHiOvershoot(m: seq<seq<Cell>>, lo: nat, hi: nat, u: nat, s0: seq<seq<Slot>>, s1: seq<seq<Slot>>)
    requires Triangular(m) && lo < hi < |m| && u == |m|
    requires s0 == SlotsOf(m) + [seq(u - 1, _ => Empty)]
    requires HorizontalOverlapStep(s0, s1, lo, hi, u)
    ensures Shaped(s1, u) && hi <= |s1[u]| && CleanBetween(s1[hi], lo + 1, hi)
  {
    assert s1[hi] == s0[hi];
  }

  /** The two horizontal helpers, in the source's order, on the copy with an
      appended row of `0`s. */
  lemma {:induction false} HorizontalZonesEstablished(m: seq<seq<Cell>>, lo: nat, hi: nat, u: nat,
                         s0: seq<seq<Slot>>, s1: seq<seq<Slot>>, s2: seq<seq<Slot>>)
    requires Triangular(m) && lo < hi < |m| && u == |m|
    requires s0 == SlotsOf(m) + [seq(u - 1, _ => Empty)]
    requires HorizontalOverlapStep(s0, s1, lo, hi, u)
    requires Shaped(s1, u) && hi <= |s1[u]| && CleanBetween(s1[hi], lo + 1, hi)
    requires HorizontalHiOvershootStep(s1, s2, lo, hi, u)
    ensures HorizontalZoned(m, s2, lo, hi)
  {
    forall r, c | 0 <= c < r < u
      ensures s2[r][c] == if r in {lo, hi} then Stale else AsSlot(m[r][c])
    {
      if r == lo {
        assert s2[lo] == s1[lo];
      } else if r != hi {
        assert s2[r] == s0[r];
      }
    }
    forall c | 0 <= c < u - 1
      ensures s2[u][c] == if c < lo then AsSlot(UnionCell(m, lo, hi, c))
                          else if lo < c < hi then MergeSlots(AsSlot(m[hi][c]), Empty)
                          else Empty
    {
      if c < lo {
        assert s2[u][c] == s1[u][c];
      } else if lo < c < hi {
        assert s1[hi] == s0[hi];
      }
    }
  }

  /** `horizontalOverlap` and `horizontalHiOvershoot` leave what
      `verticalOverlap` needs. */
  lemma ReadyForVerticalOverlap(m: seq<seq<Cell>>, lo: nat, hi: nat, z: seq<seq<Slot>>)
    requires Triangular(m) && lo < hi < |m|
    requires HorizontalZoned(m, z, lo, hi)
    ensures Shaped(z, |m|) && |z[|m|]| == |m| - 1
    ensures forall r :: hi < r < |m| ==> z[r][lo] != Stale && z[r][hi] != Stale
  {
  }

  /** `verticalOverlap` leaves what `verticalLoOvershoot` needs. */
  lemma ReadyForLoOvershoot(m: seq<seq<Cell>>, lo: nat, hi: nat, u: nat, s2: seq<seq<Slot>>, s3: seq<seq<Slot>>)
    requires Triangular(m) && lo < hi < |m| && u == |m|
    requires HorizontalZoned(m, s2, lo, hi)
    requires Shaped(s2, u) && |s2[u]| == u - 1 && forall r :: hi < r < u ==> s2[r][lo] != Stale && s2[r][hi] != Stale
    requires VerticalOverlapStep(s2, s3, lo, hi, u)
    ensures Shaped(s3, u) && hi <= |s3[u]|
    ensures forall r :: lo < r < hi ==> s3[r][lo] != Stale
    ensures CleanBetween(s3[u], lo + 1, hi)
  {
    forall r | lo < r < hi
      ensures s3[r][lo] != Stale
    {
      assert s3[r] == s2[r];
    }
  }

  /** The two vertical helpers complete the matrix described by `Zoned`; in
      particular neither reads a marker another helper has written. */
  lemma {:induction false} VerticalZonesEstablished(m: seq<seq<Cell>>, lo: nat, hi: nat, u: nat,
                         s2: seq<seq<Slot>>, s3: seq<seq<Slot>>, s4: seq<seq<Slot>>)
    requires Triangular(m) && lo < hi < |m| && u == |m|
    requires HorizontalZoned(m, s2, lo, hi)
    requires Shaped(s2, u) && |s2[u]| == u - 1 && forall r :: hi < r < u ==> s2[r][lo] != Stale && s2[r][hi] != Stale
    requires VerticalOverlapStep(s2, s3, lo, hi, u)
    requires Shaped(s3, u) && hi <= |s3[u]| && (forall r :: lo < r < hi ==> s3[r][lo] != Stale) && CleanBetween(s3[u], lo + 1, hi)
    requires VerticalLoOvershootStep(s3, s4, lo, hi, u)
    ensures Zoned(m, s4, lo, hi)
  {
    forall r, c | 0 <= c < r < u
      ensures s4[r][c] == if r in {lo, hi} || c in {lo, hi} then Stale else AsSlot(m[r][c])
    {
      if lo < r < hi {
        assert s3[r] == s2[r];
      } else if hi < r {
        assert s4[r] == s3[r];
      } else {
        assert s4[r] == s2[r];
      }
    }
    forall c | 0 <= c < |s4[u]|
      ensures s4[u][c] == if c in {lo, hi} then Empty else AsSlot(UnionCell(m, lo, hi, c))
    {
      if c < lo {
        assert s4[u][c] == s3[u][c] == s2[u][c];
      } else if lo < c < hi {
        assert s3[c] == s2[c];
        assert s3[u][c] == s2[u][c];
        MergeEdgesThroughAbsent(m[c][lo], m[hi][c]);
      } else if hi < c {
        assert s4[u][c] == s3[u][c];
      } else {
        assert s4[u][c] == s3[u][c] == s2[u][c];
      }
    }
  }

  /** The row of a node `o` other than the merged pair holds markers
      exactly at `lo` and `hi`, and the node's own cells elsewhere. */
  lemma MarkedRow(m: seq<seq<Cell>>, z: seq<seq<Slot>>, lo: nat, hi: nat, o: nat)
    requires Triangular(m) && lo < hi < |m|
    requires Zoned(m, z, lo, hi)
    requires o < |m| && o != lo && o != hi
    ensures |z[o]| == o
    ensures forall c :: 0 <= c < o ==> (z[o][c] == Stale <==> c == lo || c == hi)
    ensures forall c :: 0 <= c < o && c != lo && c != hi ==> z[o][c] == AsSlot(m[o][c])
  {
  }

  /** A row of a node other than the merged pair, stripped of its markers,
      holds the node's cells to the renumbered nodes. */
  lemma {:induction false} StrippedRow(m: seq<seq<Cell>>, z: seq<seq<Slot>>, lo: nat, hi: nat, i: nat, o: nat)
    requires Triangular(m) && lo < hi < |m|
    requires Zoned(m, z, lo, hi)
    requires i < |m| - 2 && o == OldIndex(i, lo, hi)
    ensures |RemoveStale(z[o])| == i
    ensures forall c :: 0 <= c < i ==> OldIndex(c, lo, hi) < o && RemoveStale(z[o])[c] == AsSlot(m[o][OldIndex(c, lo, hi)])
  {
    MarkedRow(m, z, lo, hi, o);
    RemoveStaleMarked(z[o], lo, hi);
    SpliceBothRenumbers(z[o], lo, hi);
    forall c | 0 <= c < i
      ensures OldIndex(c, lo, hi) < o
    {
      OldIndexMonotone(c, i, lo, hi);
    }
  }

  /** The union row, with the cells at `lo` and `hi` spliced out, holds the
      merged edge to every renumbered node. */
  lemma {:induction false} SplicedUnionRow(m: seq<seq<Cell>>, z: seq<seq<Slot>>, lo: nat, hi: nat)
    requires Triangular(m) && lo < hi < |m|
    requires Zoned(m, z, lo, hi)
    ensures var row := SpliceBoth(z[|m|], lo, hi);
            |row| == |m| - 2 &&
            forall c :: 0 <= c < |m| - 2 ==> row[c] == AsSlot(UnionCell(m, lo, hi, OldIndex(c, lo, hi)))
  {
    SpliceBothRenumbers(z[|m|], lo, hi);
  }

  /** The matrix after the splices of `merge`: the union row and then the
      matrix lose the cells and rows of `lo` and `hi`. */
  ghost function Spliced(z: seq<seq<Slot>>, lo: nat, hi: nat, u: nat): seq<seq<Slot>>
    requires lo < hi && u < |z|
  {
    SpliceBoth(z[u := SpliceBoth(z[u], lo, hi)], lo, hi)
  }

  /** Which row of the marked matrix each row of the spliced one was. */
  lemma SplicedRows(z: seq<seq<Slot>>, lo: nat, hi: nat, u: nat, y: seq<seq<Slot>>)
    requires lo < hi < u && |z| == u + 1 && y == Spliced(z, lo, hi, u)
    ensures |y| == u - 1
    ensures forall i :: 0 <= i < u - 2 ==> y[i] == z[OldIndex(i, lo, hi)]
    ensures y[u - 2] == SpliceBoth(z[u], lo, hi)
  {
    var z' := z[u := SpliceBoth(z[u], lo, hi)];
    SpliceBothRenumbers(z', lo, hi);
    assert y[u - 2] == z'[OldIndex(u - 2, lo, hi)];
  }

  /** A spliced row of a node other than the pair, once stripped, is the
      contracted matrix's row. */
  lemma {:induction false} CleanupOtherRow(m: seq<seq<Cell>>, z: seq<seq<Slot>>, lo: nat, hi: nat, row: seq<Slot>, i: nat)
    requires Triangular(m) && lo < hi < |m|
    requires Zoned(m, z, lo, hi)
    requires i < |m| - 2 && row == z[OldIndex(i, lo, hi)]
    ensures RemoveStale(row) == SlotsOf(Contracted(m, lo, hi))[i]
  {
    StrippedRow(m, z, lo, hi, i, OldIndex(i, lo, hi));
    ContractedRow(m, lo, hi, i);
  }

  /** The spliced union row is the contracted matrix's last row. */
  lemma {:induction false} CleanupUnionRow(m: seq<seq<Cell>>, z: seq<seq<Slot>>, lo: nat, hi: nat, row: seq<Slot>)
    requires Triangular(m) && lo < hi < |m|
    requires Zoned(m, z, lo, hi)
    requires row == SpliceBoth(z[|m|], lo, hi)
    ensures row == SlotsOf(Contracted(m, lo, hi))[|m| - 2]
  {
    SplicedUnionRow(m, z, lo, hi);
    ContractedRow(m, lo, hi, |m| - 2);
  }

  /** Row by row, the spliced matrix stripped of its markers is the
      contracted one. */
  lemma {:induction false} CleanupRows(m: seq<seq<Cell>>, z: seq<seq<Slot>>, lo: nat, hi: nat, u: nat, y: seq<seq<Slot>>)
    requires Triangular(m) && lo < hi < |m| && u == |m|
    requires Zoned(m, z, lo, hi)
    requires y == Spliced(z, lo, hi, u)
    ensures |y| == u - 1
    ensures forall i :: 0 <= i < u - 2 ==> RemoveStale(y[i]) == SlotsOf(Contracted(m, lo, hi))[i]
    ensures y[u - 2] == SlotsOf(Contracted(m, lo, hi))[u - 2]
  {
    SplicedRows(z, lo, hi, u, y);
    forall i | 0 <= i < u - 2
      ensures RemoveStale(y[i]) == SlotsOf(Contracted(m, lo, hi))[i]
    {
      CleanupOtherRow(m, z, lo, hi, y[i], i);
    }
    CleanupUnionRow(m, z, lo, hi, y[u - 2]);
  }

  /** Stripping every row but the last, when that gives the rows of `k`. */
  lemma StripRowsEach(y: seq<seq<Slot>>, k: seq<seq<Slot>>)
    requires |y| == |k| > 0
    requires forall i :: 0 <= i < |y| - 1 ==> RemoveStale(y[i]) == k[i]
    requires y[|y| - 1] == k[|y| - 1]
    ensures StripRows(y) == k
  {
  }

  /** Splicing the union row and the two merged rows out, then stripping the
      markers, leaves exactly the contracted matrix. */
  lemma {:induction false} CleanupContracts(m: seq<seq<Cell>>, z: seq<seq<Slot>>, lo: nat, hi: nat, u: nat)
    requires Triangular(m) && lo < hi < |m| && u == |m|
    requires Zoned(m, z, lo, hi)
    ensures NoStale(StripRows(Spliced(z, lo, hi, u)))
    ensures CellsOf(StripRows(Spliced(z, lo, hi, u))) == Contracted(m, lo, hi)
  {
    var y := Spliced(z, lo, hi, u);
    var k := Contracted(m, lo, hi);
    CleanupRows(m, z, lo, hi, u, y);
    StripRowsEach(y, SlotsOf(k));
    CellsOfSlotsOf(k);
  }

  /** Row `i` of the contracted matrix, as the copy the surgery works on holds it. */
  lemma {:induction false} ContractedRow(m: seq<seq<Cell>>, lo: nat, hi: nat, i: nat)
    requires Triangular(m) && lo < hi < |m| && i < |m| - 1
    ensures var row := SlotsOf(Contracted(m, lo, hi))[i];
            && |row| == i
            && (i < |m| - 2 ==> forall c :: 0 <= c < i ==> OldIndex(c, lo, hi) < OldIndex(i, lo, hi) && row[c] == AsSlot(m[OldIndex(i, lo, hi)][OldIndex(c, lo, hi)]))
            && (i == |m| - 2 ==> forall c :: 0 <= c < i ==> row[c] == AsSlot(UnionCell(m, lo, hi, OldIndex(c, lo, hi))))
  {
    forall c | 0 <= c < i
      ensures OldIndex(c, lo, hi) < OldIndex(i, lo, hi)
    {
      OldIndexMonotone(c, i, lo, hi);
    }
  }

  lemma SlotsOfCellsOf(g: seq<seq<Slot>>)
    requires NoStale(g)
    ensures SlotsOf(CellsOf(g)) == g
  {
    var r := SlotsOf(CellsOf(g));
    forall i | 0 <= i < |g|
      ensures r[i] == g[i]
    {
    }
  }

  /** The stop list after `push`, `splice(lo, 1)` and `splice(hi - 1, 1)`. */
  lemma StopSplicesMerge(stops: seq<Stops.Stop>, x: Stops.Stop, lo: nat, hi: nat)
    requires lo < hi < |stops| && x == Stops.MergeWith(stops[lo], stops[hi])
    ensures SpliceBoth(stops + [x], lo, hi) == MergedStops(stops, lo, hi)
  {
    SpliceBothPush(stops, x, lo, hi);
  }

  /** Pushing `x` and splicing out `lo` and `hi` cuts the pair out and
      leaves `x` last. */
  lemma SpliceBothPush<T>(s: seq<T>, x: T, lo: nat, hi: nat)
    requires lo < hi < |s|
    ensures SpliceBoth(s + [x], lo, hi) == s[..lo] + s[lo + 1..hi] + s[hi + 1..] + [x]
  {
    var l := SpliceBoth(s + [x], lo, hi);
    var r := s[..lo] + s[lo + 1..hi] + s[hi + 1..] + [x];
    SpliceBothRenumbers(s + [x], lo, hi);
    RemovePairRenumbers(s, lo, hi);
    forall k | 0 <= k < |r|
      ensures l[k] == r[k]
    {
      if k == |r| - 1 {
        assert OldIndex(k, lo, hi) == |s|;
      }
    }
  }

  lemma TriangularOfCells(g: seq<seq<Slot>>)
    requires NoStale(g) && Triangular(CellsOf(g))
    ensures Triangular(g)
  {
  }

  // ---- The surgery itself ----

  /** The working state of one `merge`: the copy of the matrix and the copy
      of the stop list, both updated in place. */
  class MatrixSurgery {
    var newGraph: seq<seq<Slot>>
    var newStops: seq<Stops.Stop>

    /** Between two merges the copy holds no marker, is lower-triangular and
        has one stop per node. */
    predicate Valid()
      reads this
    {
      NoStale(newGraph) && Triangular(newGraph) && |newStops| == |newGraph|
    }

    /** The graph the working copy stands for. */
    function Current(): (g: TransitGraph)
      reads this
      requires Valid()
      ensures g.Valid() && g.Length() == |newGraph|
    {
      TransitGraph(CellsOf(newGraph), newStops)
    }

    /** `graph.G.makeCopy()` and `graph.stops.slice()`. */
    constructor (g: TransitGraph)
      requires g.Valid()
      ensures Valid() && Current() == g
    {
      newGraph := SlotsOf(g.cells);
      newStops := g.stops;
      new;
      CellsOfSlotsOf(g.cells);
    }

    /** `horizontalOverlap`. */
    method HorizontalOverlap(lo: nat, hi: nat, u: nat)
      requires Shaped(newGraph, u) && lo < hi < u && lo <= |newGraph[u]|
      requires CleanBetween(newGraph[lo], 0, lo) && CleanBetween(newGraph[hi], 0, lo)
      modifies this
      ensures HorizontalOverlapStep(old(newGraph), newGraph, lo, hi, u)
      ensures newStops == old(newStops)
    {
      ghost var g := newGraph;
      var i := 0;
      while i < lo
        invariant newStops == old(newStops)
        invariant 0 <= i <= lo
        invariant |newGraph| == |g|
        invariant forall r :: 0 <= r < |g| && r != lo && r != u ==> newGraph[r] == g[r]
        invariant |newGraph[lo]| == lo
        invariant forall c :: 0 <= c < lo ==> newGraph[lo][c] == if c < i then Stale else g[lo][c]
        invariant |newGraph[u]| == |g[u]|
        invariant forall c :: 0 <= c < |g[u]| ==>
                    newGraph[u][c] == if c < i then MergeSlots(g[lo][c], g[hi][c]) else g[u][c]
      {
        newGraph := newGraph[u := Store(newGraph[u], i, MergeSlots(newGraph[lo][i], newGraph[hi][i]))];
        newGraph := newGraph[lo := Store(newGraph[lo], i, Stale)];
        i := i + 1;
      }
    }

    /** `horizontalHiOvershoot`. */
    method HorizontalHiOvershoot(lo: nat, hi: nat, u: nat)
      requires Shaped(newGraph, u) && lo < hi < u && hi <= |newGraph[u]|
      requires CleanBetween(newGraph[hi], lo + 1, hi)
      modifies this
      ensures HorizontalHiOvershootStep(old(newGraph), newGraph, lo, hi, u)
      ensures newStops == old(newStops)
    {
      ghost var g := newGraph;
      var i := lo + 1;
      while i < hi
        invariant newStops == old(newStops)
        invariant lo + 1 <= i <= hi
        invariant |newGraph| == |g|
        invariant newGraph == g[u := newGraph[u]]
        invariant |newGraph[u]| == |g[u]|
        invariant forall c :: 0 <= c < |g[u]| ==>
                    newGraph[u][c] == if lo < c < i then MergeSlots(g[hi][c], Empty) else g[u][c]
      {
        newGraph := newGraph[u := Store(newGraph[u], i, MergeSlots(newGraph[hi][i], Empty))];
        i := i + 1;
      }
      ghost var g' := newGraph;
      i := 0;
      while i < hi
        invariant newStops == old(newStops)
        invariant 0 <= i <= hi
        invariant |newGraph| == |g|
        invariant newGraph == g'[hi := newGraph[hi]]
        invariant |newGraph[hi]| == hi
        invariant forall c :: 0 <= c < hi ==> newGraph[hi][c] == if c < i then Stale else g[hi][c]
      {
        newGraph := newGraph[hi := Store(newGraph[hi], i, Stale)];
        i := i + 1;
      }
    }

    /** `verticalOverlap`; the last store appends a cell to the union row. */
    method VerticalOverlap(lo: nat, hi: nat, u: nat)
      requires Shaped(newGraph, u) && lo < hi < u && |newGraph[u]| == u - 1
      requires forall r :: hi < r < u ==> newGraph[r][lo] != Stale && newGraph[r][hi] != Stale
      modifies this
      ensures VerticalOverlapStep(old(newGraph), newGraph, lo, hi, u)
      ensures newStops == old(newStops)
    {
      ghost var g := newGraph;
      var i := hi + 1;
      while i < u
        invariant newStops == old(newStops)
        invariant hi + 1 <= i <= u
        invariant VerticalOverlapUpTo(g, newGraph, lo, hi, u, i)
      {
        var subGraph := newGraph[i];
        ghost var before := newGraph;
        newGraph := newGraph[u := Store(newGraph[u], i, MergeSlots(subGraph[lo], subGraph[hi]))];
        subGraph := Store(subGraph, lo, Stale);
        subGraph := Store(subGraph, hi, Stale);
        newGraph := newGraph[i := subGraph];
        VerticalOverlapAdvance(g, before, newGraph, lo, hi, u, i);
        i := i + 1;
      }
    }

    /** `verticalLoOvershoot`. */
    method VerticalLoOvershoot(lo: nat, hi: nat, u: nat)
      requires Shaped(newGraph, u) && lo < hi < u && hi <= |newGraph[u]|
      requires forall r :: lo < r < hi ==> newGraph[r][lo] != Stale
      requires CleanBetween(newGraph[u], lo + 1, hi)
      modifies this
      ensures VerticalLoOvershootStep(old(newGraph), newGraph, lo, hi, u)
      ensures newStops == old(newStops)
    {
      ghost var g := newGraph;
      var i := lo + 1;
      while i < hi
        invariant newStops == old(newStops)
        invariant lo + 1 <= i <= hi
        invariant VerticalLoOvershootUpTo(g, newGraph, lo, hi, u, i)
      {
        ghost var before := newGraph;
        var overlap := newGraph[i][lo];
        newGraph := newGraph[u := Store(newGraph[u], i, MergeSlots(overlap, newGraph[u][i]))];
        newGraph := newGraph[i := Store(newGraph[i], lo, Stale)];
        VerticalLoOvershootAdvance(g, before, newGraph, lo, hi, u, i);
        i := i + 1;
      }
    }

    /** The final loop of `merge`: every row but the last loses its markers,
        one `indexOf`/`splice` at a time. */
    method RemoveStaleCells()
      modifies this
      ensures newGraph == StripRows(old(newGraph))
      ensures newStops == old(newStops)
    {
      ghost var g := newGraph;
      var i := 0;
      while i < |newGraph| - 1
        invariant |newGraph| == |g|
        invariant |g| == 0 || i <= |g| - 1
        invariant forall r :: 0 <= r < |g| ==> newGraph[r] == if r < i then RemoveStale(g[r]) else g[r]
        invariant newStops == old(newStops)
      {
        while Stale in newGraph[i]
          invariant |newGraph| == |g|
          invariant forall r :: 0 <= r < |g| && r != i ==> newGraph[r] == if r < i then RemoveStale(g[r]) else g[r]
          invariant RemoveStale(newGraph[i]) == RemoveStale(g[i])
          invariant newStops == old(newStops)
          decreases |newGraph[i]|
        {
          SpliceFirstStale(newGraph[i]);
          newGraph := newGraph[i := Splice(newGraph[i], FirstMarker(newGraph[i]))];
        }
        RemoveStaleOfClean(newGraph[i]);
        i := i + 1;
      }
      assert forall r :: 0 <= r < |g| ==> newGraph[r] == StripRows(g)[r];
    }

    /** The row of `0`s `merge` appends, one cell short of the new row
        count. */
    method PushUnionRow()
      requires newGraph != []
      modifies this
      ensures newGraph == old(newGraph) + [seq(|old(newGraph)| - 1, _ => Empty)]
      ensures newStops == old(newStops)
    {
      var newRow: seq<Slot> := [];
      while |newRow| < |newGraph| - 1
        invariant newRow == seq(|newRow|, _ => Empty)
        invariant |newRow| <= |newGraph| - 1
      {
        newRow := newRow + [Empty];
      }
      newGraph := newGraph + [newRow];
    }

    /** `horizontalOverlap` then `horizontalHiOvershoot`. */
    method HorizontalZones(ghost m: seq<seq<Cell>>, lo: nat, hi: nat, u: nat)
      requires Triangular(m) && lo < hi < |m| && u == |m|
      requires newGraph == SlotsOf(m) + [seq(u - 1, _ => Empty)]
      modifies this
      ensures HorizontalZoned(m, newGraph, lo, hi)
      ensures newStops == old(newStops)
    {
      ghost var s0 := newGraph;
      HorizontalOverlap(lo, hi, u);
      ghost var s1 := newGraph;
      ReadyForHiOvershoot(m, lo, hi, u, s0, s1);
      HorizontalHiOvershoot(lo, hi, u);
      HorizontalZonesEstablished(m, lo, hi, u, s0, s1, newGraph);
    }

    /** `verticalOverlap` then `verticalLoOvershoot`. */
    method VerticalZones(ghost m: seq<seq<Cell>>, lo: nat, hi: nat, u: nat)
      requires Triangular(m) && lo < hi < |m| && u == |m|
      requires HorizontalZoned(m, newGraph, lo, hi)
      modifies this
      ensures Zoned(m, newGraph, lo, hi)
      ensures newStops == old(newStops)
    {
      ghost var s2 := newGraph;
      ReadyForVerticalOverlap(m, lo, hi, s2);
      VerticalOverlap(lo, hi, u);
      ghost var s3 := newGraph;
      ReadyForLoOvershoot(m, lo, hi, u, s2, s3);
      VerticalLoOvershoot(lo, hi, u);
      VerticalZonesEstablished(m, lo, hi, u, s2, s3, newGraph);
    }

    /** The part of `merge` that adds the union row of `0`s and runs the four
        helpers in the source's order: it leaves the matrix described by
        `Zoned`. */
    method BuildUnion(ghost m: seq<seq<Cell>>, lo: nat, hi: nat)
      requires Triangular(m) && newGraph == SlotsOf(m) && lo < hi < |m|
      modifies this
      ensures Zoned(m, newGraph, lo, hi)
      ensures newStops == old(newStops)
    {
      var unionIndex := |newGraph|;
      PushUnionRow();
      HorizontalZones(m, lo, hi, unionIndex);
      VerticalZones(m, lo, hi, unionIndex);
    }

    /** The splices of `merge`: the cells of the pair leave the union row,
        then the pair's rows leave the matrix. */
    method SpliceMerged(lo: nat, hi: nat, unionIndex: nat)
      requires lo < hi < |newGraph| && unionIndex == |newGraph| - 1
      modifies this
      ensures newGraph == Spliced(old(newGraph), lo, hi, unionIndex)
      ensures newStops == old(newStops)
    {
      ghost var g := newGraph;
      var unionRow := Splice(newGraph[unionIndex], lo);
      unionRow := Splice(unionRow, hi - 1);
      assert unionRow == SpliceBoth(g[unionIndex], lo, hi);
      newGraph := newGraph[unionIndex := unionRow];
      ghost var g' := newGraph;
      newGraph := Splice(newGraph, lo);
      newGraph := Splice(newGraph, hi - 1);
      assert newGraph == SpliceBoth(g', lo, hi);
    }

    /** The part of `merge` after the helpers: the splices and the final
        loop leave the contracted matrix, free of markers. */
    method Cleanup(ghost m: seq<seq<Cell>>, lo: nat, hi: nat)
      requires Triangular(m) && lo < hi < |m|
      requires Zoned(m, newGraph, lo, hi)
      modifies this
      ensures NoStale(newGraph) && Triangular(newGraph)
      ensures CellsOf(newGraph) == Contracted(m, lo, hi)
      ensures newStops == old(newStops)
    {
      ghost var z := newGraph;
      var unionIndex := |newGraph| - 1;
      SpliceMerged(lo, hi, unionIndex);
      RemoveStaleCells();
      CleanupContracts(m, z, lo, hi, unionIndex);
      TriangularOfCells(newGraph);
    }

    /** The stop list part of `merge`: the merged stop is pushed, then the
        pair's stops are spliced out. */
    method MergeStops(lo: nat, hi: nat)
      requires lo < hi < |newStops|
      modifies this
      ensures newStops == MergedStops(old(newStops), lo, hi)
      ensures newGraph == old(newGraph)
    {
      ghost var stops := newStops;
      var newStop := Stops.MergeWith(newStops[lo], newStops[hi]);
      newStops := newStops + [newStop];
      newStops := Splice(newStops, lo);
      newStops := Splice(newStops, hi - 1);
      StopSplicesMerge(stops, newStop, lo, hi);
    }

    /** `merge(lo, hi)`: the pair is replaced by one node, placed last, whose
        stop is the receiver's `mergeWith` of the other and whose edges are
        the `mergeEdges` of the pair's. */
    method Merge(lo: nat, hi: nat)
      requires Valid() && lo < hi < |newGraph|
      modifies this
      ensures Valid()
      ensures CellsOf(newGraph) == Contracted(CellsOf(old(newGraph)), lo, hi)
      ensures newStops == MergedStops(old(newStops), lo, hi)
    {
      ghost var m := CellsOf(newGraph);
      SlotsOfCellsOf(newGraph);
      MergeStops(lo, hi);
      BuildUnion(m, lo, hi);
      Cleanup(m, lo, hi);
    }

    /** `mergeTop`: the pair in either order. */
    method MergeTop(indexA: nat, indexB: nat)
      requires Valid() && indexA < |newGraph| && indexB < |newGraph| && indexA != indexB
      modifies this
      ensures Valid()
      ensures var lo := if indexA < indexB then indexA else indexB;
              var hi := if indexA < indexB then indexB else indexA;
              && CellsOf(newGraph) == Contracted(CellsOf(old(newGraph)), lo, hi)
              && newStops == MergedStops(old(newStops), lo, hi)
    {
      if indexA < indexB {
        Merge(indexA, indexB);
      } else {
        Merge(indexB, indexA);
      }
    }
  }
}
