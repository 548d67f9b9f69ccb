/** A transit stop and the merge operation the contraction relies on.
    lib/stop.js is not part of this model; its `mergeWith` is modelled on
    the behaviour test/stopSpec.js asserts. */
module Stops {
  import opened Seqs

  /** A stop id: the source uses integers for loaded stops and strings for
      merged ones. */
  datatype StopId = IntId(n: int) | TextId(text: string)

  /** A route reference; routes are compared by value. */
  datatype Route = Route(id: string)

  datatype Stop = Stop(id: StopId, name: string, latitude: real, longitude: real, routes: seq<Route>)

  /** The text that joins the names of merged stops. */
  const Separator: string := " / "

  /** Decimal digits of a natural number, most significant first. */
  function Digits(n: nat): (s: string)
    ensures |s| >= 1
    ensures forall k :: 0 <= k < |s| ==> '0' <= s[k] <= '9'
    ensures n < 10 ==> |s| == 1
    ensures 10 <= n ==> 2 <= |s|
  {
    if n < 10 then [('0' as int + n) as char] else Digits(n / 10) + [('0' as int + n % 10) as char]
  }

  /** How an id is written when ids are concatenated. */
  function IdText(id: StopId): string {
    match id
    case IntId(n) => if n < 0 then "-" + Digits(-n) else Digits(n)
    case TextId(t) => t
  }

  /** The id of a merged stop: both ids joined by '-'. */
  function MergeIds(a: StopId, b: StopId): (r: StopId)
    ensures r.TextId?
    ensures IdText(a) + "-" <= r.text
    ensures |r.text| == |IdText(a)| + 1 + |IdText(b)|
    ensures r.text[|IdText(a)| + 1..] == IdText(b)
  {
    TextId(IdText(a) + "-" + IdText(b))
  }

  /** `t` occurs in `s` starting at index `i`. */
  predicate OccursAt(s: string, t: string, i: int) {
    0 <= i <= |s| - |t| && s[i..i + |t|] == t
  }

  /** `t` occurs in `s` as a contiguous block. */
  predicate Contains(s: string, t: string) {
    exists i | 0 <= i <= |s| - |t| :: OccursAt(s, t, i)
  }

  /** `s` ends with `t`. */
  predicate EndsWith(s: string, t: string) {
    |t| <= |s| && s[|s| - |t|..] == t
  }

  /** `part` is one whole ' / '-delimited field of `name`: all of it, its
      first field, its last field or an inner field. */
  predicate HasPart(name: string, part: string) {
    || name == part
    || part + Separator <= name
    || EndsWith(name, Separator + part)
    || Contains(name, Separator + part + Separator)
  }

  /** The name of a merged stop: the other name is appended after the
      separator unless it is already one of the receiver's fields. */
  function MergeNames(a: string, b: string): (r: string)
    ensures HasPart(a, b) ==> r == a
    ensures !HasPart(a, b) ==> r == a + Separator + b
    ensures HasPart(r, b)
  {
    if HasPart(a, b) then a else a + Separator + b
  }

  /** The arithmetic mean of two coordinates. */
  function Mean(x: real, y: real): (m: real)
    ensures m - x == y - m
    ensures (x <= m <= y) || (y <= m <= x)
  {
    (x + y) / 2.0
  }

  /** The elements of `s` in order of first occurrence, each once. */
  function Dedup<T(==)>(s: seq<T>): (r: seq<T>)
    ensures Distinct(r)
    ensures Elems(r) == Elems(s)
    ensures |r| <= |s|
  {
    if s == [] then []
    else
      var d := Dedup(s[..|s| - 1]);
      assert Elems(s) == Elems(s[..|s| - 1]) + {s[|s| - 1]} by {
        assert s == s[..|s| - 1] + [s[|s| - 1]];
      }
      if s[|s| - 1] in d then d else d + [s[|s| - 1]]
  }

  /** The routes of a merged stop: the union of both, without repeats, in
      first-seen order. */
  function MergeRoutes(a: seq<Route>, b: seq<Route>): (r: seq<Route>)
    ensures Distinct(r)
    ensures Elems(r) == Elems(a) + Elems(b)
  {
    Dedup(a + b)
  }

  /** `self.mergeWith(other)`: a new stop combining both. */
  function MergeWith(self: Stop, other: Stop): (m: Stop)
    ensures m.id == MergeIds(self.id, other.id)
    ensures m.name == MergeNames(self.name, other.name)
    ensures m.latitude - self.latitude == other.latitude - m.latitude
    ensures m.longitude - self.longitude == other.longitude - m.longitude
    ensures Distinct(m.routes)
    ensures Elems(m.routes) == Elems(self.routes) + Elems(other.routes)
  {
    Stop(MergeIds(self.id, other.id),
         MergeNames(self.name, other.name),
         Mean(self.latitude, other.latitude),
         Mean(self.longitude, other.longitude),
         MergeRoutes(self.routes, other.routes))
  }

  // ---- Properties of the merge rule ----

  /** Deduplicating a sequence that has no repeats changes nothing. */
  lemma {:induction false} DedupOfDistinct<T>(s: seq<T>)
    requires Distinct(s)
    ensures Dedup(s) == s
  {
    if s != [] {
      var init := s[..|s| - 1];
      assert Distinct(init);
      DedupOfDistinct(init);
      assert s[|s| - 1] !in init;
      assert init + [s[|s| - 1]] == s;
    }
  }

  /** First-seen order: what is kept from a prefix stays a prefix of what is
      kept from the whole. */
  lemma {:induction false} DedupPrefix<T>(a: seq<T>, b: seq<T>)
    ensures Dedup(a) <= Dedup(a + b)
  {
    if b != [] {
      var b' := b[..|b| - 1];
      DedupPrefix(a, b');
      var s := a + b;
      assert s[..|s| - 1] == a + b';
      var d := Dedup(a + b');
      assert Dedup(s) == d || Dedup(s) == d + [s[|s| - 1]];
      assert d <= Dedup(s);
      var e := Dedup(a);
      assert e == d[..|e|];
      assert d[..|e|] == Dedup(s)[..|e|];
    } else {
      assert a + b == a;
    }
  }

  /** The receiver's own routes (without repeats) come first, in their order. */
  lemma MergeRoutesReceiverFirst(a: seq<Route>, b: seq<Route>)
    requires Distinct(a)
    ensures a <= MergeRoutes(a, b)
  {
    DedupPrefix(a, b);
    DedupOfDistinct(a);
  }

  /** Merging with a stop of the same name keeps the name. */
  lemma MergeNamesSame(a: string)
    ensures MergeNames(a, a) == a
  {
  }

  /** Merging again with a stop of the same name as the last one changes nothing. */
  lemma MergeNamesIdempotent(a: string, b: string)
    ensures MergeNames(MergeNames(a, b), b) == MergeNames(a, b)
  {
  }

  /** Fields of the receiver's name stay fields of the merged name. */
  lemma {:induction false} MergeNamesKeepsParts(a: string, b: string, p: string)
    requires HasPart(a, p)
    ensures HasPart(MergeNames(a, b), p)
  {
    if !HasPart(a, b) {
      var r := a + Separator + b;
      if a == p {
        assert r[..|p + Separator|] == p + Separator;
      } else if p + Separator <= a {
        assert r[..|p + Separator|] == a[..|p + Separator|];
      } else if EndsWith(a, Separator + p) {
        var t := Separator + p + Separator;
        var i := |a| - |Separator + p|;
        assert r[i..i + |t|] == t;
        assert OccursAt(r, t, i);
      } else {
        var t := Separator + p + Separator;
        var i :| 0 <= i <= |a| - |t| && OccursAt(a, t, i);
        assert r[i..i + |t|] == a[i..i + |t|];
        assert OccursAt(r, t, i);
      }
    }
  }

  /** The mean is symmetric, so a merge is commutative in its coordinates. */
  lemma MeanSymmetric(x: real, y: real)
    ensures Mean(x, y) == Mean(y, x)
  {
  }

  // ---- The fixtures of the stop test suite ----

  const StopOne := Stop(IntId(0), "Stop One", 40.0, 50.0, [Route("1"), Route("2")])
  const StopTwo := Stop(IntId(1), "Stop Two", -40.0, 75.0, [Route("3"), Route("2")])
  const StopThree := Stop(IntId(2), "Stop One", 0.0, 0.0, [Route("1")])

  /** A stop keeps the id and name it is created with. */
  lemma FixturesCreated()
    ensures StopOne.id == IntId(0) && StopTwo.name == "Stop Two"
  {
  }

  /** Merging the first two fixtures gives id '0-1', the joined name, the
      mean coordinates (0, 62.5) and the routes 1, 2, 3. */
  lemma MergeTwoFixtures()
    ensures MergeWith(StopOne, StopTwo)
         == Stop(TextId("0-1"), "Stop One / Stop Two", 0.0, 62.5, [Route("1"), Route("2"), Route("3")])
  {
    FixtureIds();
    FixtureNames();
    FixtureRoutes();
  }

  lemma FixtureIds()
    ensures MergeIds(IntId(0), IntId(1)) == TextId("0-1")
  {
    assert Digits(0) == "0" && Digits(1) == "1";
  }

  lemma FixtureNames()
    ensures MergeNames("Stop One", "Stop Two") == "Stop One / Stop Two"
  {
    assert !Contains("Stop One", Separator + "Stop Two" + Separator) by {
      assert |Separator + "Stop Two" + Separator| > |"Stop One"|;
    }
    assert !HasPart("Stop One", "Stop Two");
  }

  lemma FixtureRoutes()
    ensures MergeRoutes(StopOne.routes, StopTwo.routes) == [Route("1"), Route("2"), Route("3")]
  {
    var s := [Route("1"), Route("2"), Route("3"), Route("2")];
    assert StopOne.routes + StopTwo.routes == s;
    assert s[..3][..2][..1] == [Route("1")];
    assert Dedup(s[..3][..2][..1]) == [Route("1")];
    assert s[..3][..2] == [Route("1"), Route("2")];
    assert Dedup(s[..3][..2]) == [Route("1"), Route("2")];
    assert s[..3] == [Route("1"), Route("2"), Route("3")];
    assert Dedup(s[..3]) == [Route("1"), Route("2"), Route("3")];
  }

  /** A same-named stop does not extend the name. */
  lemma MergeSameNameFixture()
    ensures MergeWith(StopOne, StopThree).name == StopThree.name
  {
  }

  /** In a chained three-way merge the repeated name is not appended again. */
  lemma MergeThreeFixtures()
    ensures MergeWith(MergeWith(StopOne, StopTwo), StopThree).name == MergeWith(StopOne, StopTwo).name
  {
    MergeTwoFixtures();
    var n := "Stop One / Stop Two";
    assert "Stop One" + Separator <= n by {
      assert n[..11] == "Stop One / ";
    }
  }
}
