/**
  The list of completed byte ranges: sorted, non-empty, pairwise separated.  `Union` is the reference
  (a one-pass union with an interval); the class updates its list in place as the source does.
 */
module RangeLists {
  import opened Common

  datatype Range = Range(begin: nat, end: nat)

  ghost predicate Canonical(rs: seq<Range>) {
    && (forall i :: 0 <= i < |rs| ==> rs[i].begin < rs[i].end)
    && (forall i, j :: 0 <= i < j < |rs| ==> rs[i].end < rs[j].begin)
  }

  ghost predicate Covers(rs: seq<Range>, x: nat) {
    exists i :: 0 <= i < |rs| && rs[i].begin <= x < rs[i].end
  }

  ghost predicate SameCoverage(a: seq<Range>, b: seq<Range>) {
    forall x: nat :: Covers(a, x) <==> Covers(b, x)
  }

  predicate Overlaps(rs: seq<Range>, lo: nat, hi: nat) {
    exists i :: 0 <= i < |rs| && rs[i].begin < hi && lo < rs[i].end
  }

  ghost predicate Within(rs: seq<Range>, total: nat) {
    forall i :: 0 <= i < |rs| ==> rs[i].end <= total
  }

  function Min(a: nat, b: nat): nat {
    if a <= b then a else b
  }

  function Max(a: nat, b: nat): nat {
    if a >= b then a else b
  }

  function Total(rs: seq<Range>): int {
    if rs == [] then 0 else rs[0].end - rs[0].begin + Total(rs[1..])
  }

  /** Union with `[lo, hi)`: ranges that touch the interval are absorbed into it. */
  function Union(rs: seq<Range>, lo: nat, hi: nat): (u: seq<Range>)
    requires lo < hi
    decreases |rs|
  {
    if rs == [] then [Range(lo, hi)]
    else if hi < rs[0].begin then [Range(lo, hi)] + rs
    else if rs[0].end < lo then [rs[0]] + Union(rs[1..], lo, hi)
    else Union(rs[1..], Min(lo, rs[0].begin), Max(hi, rs[0].end))
  }

  // ----- The reference is the union of sets, in canonical form -----

  lemma CoversCons(r: Range, rs: seq<Range>, x: nat)
    ensures Covers([r] + rs, x) <==> r.begin <= x < r.end || Covers(rs, x)
  {
    var s := [r] + rs;
    if r.begin <= x < r.end {
      assert s[0] == r;
    }
    if Covers(rs, x) {
      var i :| 0 <= i < |rs| && rs[i].begin <= x < rs[i].end;
      assert s[i + 1] == rs[i];
    }
    if Covers(s, x) && !(r.begin <= x < r.end) {
      var i :| 0 <= i < |s| && s[i].begin <= x < s[i].end;
      assert rs[i - 1] == s[i];
    }
  }

  lemma CoversHead(rs: seq<Range>, x: nat)
    requires rs != []
    ensures Covers(rs, x) <==> rs[0].begin <= x < rs[0].end || Covers(rs[1..], x)
  {
    assert rs == [rs[0]] + rs[1..];
    CoversCons(rs[0], rs[1..], x);
  }

  lemma {:induction false} UnionCovers(rs: seq<Range>, lo: nat, hi: nat, x: nat)
    requires lo < hi && Canonical(rs)
    ensures Covers(Union(rs, lo, hi), x) <==> Covers(rs, x) || lo <= x < hi
    decreases |rs|
  {
    if rs == [] {
      CoversCons(Range(lo, hi), [], x);
      assert Union(rs, lo, hi) == [Range(lo, hi)] + [];
    } else {
      CoversHead(rs, x);
      if hi < rs[0].begin {
        CoversCons(Range(lo, hi), rs, x);
      } else if rs[0].end < lo {
        UnionCovers(rs[1..], lo, hi, x);
        CoversCons(rs[0], Union(rs[1..], lo, hi), x);
      } else {
        UnionCovers(rs[1..], Min(lo, rs[0].begin), Max(hi, rs[0].end), x);
      }
    }
  }

  lemma {:induction false} UnionCanonical(rs: seq<Range>, lo: nat, hi: nat, floor: int)
    requires lo < hi && Canonical(rs)
    requires floor < lo && forall i :: 0 <= i < |rs| ==> floor < rs[i].begin
    ensures Canonical(Union(rs, lo, hi))
    ensures forall i :: 0 <= i < |Union(rs, lo, hi)| ==> floor < Union(rs, lo, hi)[i].begin
    decreases |rs|
  {
    if rs == [] || hi < rs[0].begin {
    } else if rs[0].end < lo {
      UnionCanonical(rs[1..], lo, hi, rs[0].end);
    } else {
      UnionCanonical(rs[1..], Min(lo, rs[0].begin), Max(hi, rs[0].end), floor);
    }
  }

  lemma {:induction false} UnionWithin(rs: seq<Range>, lo: nat, hi: nat, total: nat)
    requires lo < hi <= total && Within(rs, total)
    ensures Within(Union(rs, lo, hi), total)
    decreases |rs|
  {
    if rs == [] || hi < rs[0].begin {
    } else if rs[0].end < lo {
      UnionWithin(rs[1..], lo, hi, total);
    } else {
      UnionWithin(rs[1..], Min(lo, rs[0].begin), Max(hi, rs[0].end), total);
    }
  }

  /** Overlap of a range list is overlap of byte sets. */
  /** The byte before `x` and the byte at `x` lie in one range. */
  predicate Inside(rs: seq<Range>, x: nat) {
    exists i :: 0 <= i < |rs| && rs[i].begin < x < rs[i].end
  }

  /** Why a request is refused: the first of the tests that fails. */
  function InsertReason(rs: seq<Range>, offset: nat, length: nat, totalSize: nat): string {
    if length == 0 then "range length must be greater than zero"
    else if offset > totalSize || length > totalSize - offset then "range exceeds transfer size"
    else if Inside(rs, offset) then "range overlaps previous completed range"
    else "range overlaps next completed range"
  }

  lemma OverlapsMeaning(rs: seq<Range>, lo: nat, hi: nat)
    requires Canonical(rs) && lo < hi
    ensures Overlaps(rs, lo, hi) <==> exists x: nat :: lo <= x < hi && Covers(rs, x)
  {
    if Overlaps(rs, lo, hi) {
      var i :| 0 <= i < |rs| && rs[i].begin < hi && lo < rs[i].end;
      var x := Max(lo, rs[i].begin);
      assert lo <= x < hi && Covers(rs, x);
    }
    if exists x: nat :: lo <= x < hi && Covers(rs, x) {
      var x: nat :| lo <= x < hi && Covers(rs, x);
      var i :| 0 <= i < |rs| && rs[i].begin <= x < rs[i].end;
      assert rs[i].begin < hi && lo < rs[i].end;
    }
  }

  // ----- Canonical lists are unique -----

  lemma FirstByte(rs: seq<Range>, x: nat)
    requires Canonical(rs) && rs != []
    ensures Covers(rs, rs[0].begin) && !Covers(rs, rs[0].end)
    ensures Covers(rs, x) ==> rs[0].begin <= x
    ensures Covers(rs[1..], x) <==> Covers(rs, x) && rs[0].end <= x
  {
    assert Covers(rs, rs[0].begin);
    CoversHead(rs, x);
    if Covers(rs[1..], x) {
      var i :| 0 <= i < |rs[1..]| && rs[1..][i].begin <= x < rs[1..][i].end;
      assert rs[1..][i] == rs[i + 1];
    }
  }

  lemma EmptyCovers(rs: seq<Range>)
    requires Canonical(rs)
    ensures rs == [] <==> forall x: nat :: !Covers(rs, x)
  {
    if rs != [] {
      CoversFirst(rs, rs[0].begin);
    }
  }

  lemma CoversFirst(rs: seq<Range>, x: nat)
    requires rs != []
    ensures rs[0].begin <= x < rs[0].end ==> Covers(rs, x)
  {
  }

  lemma SameFirst(a: seq<Range>, b: seq<Range>)
    requires Canonical(a) && Canonical(b) && a != [] && b != [] && SameCoverage(a, b)
    ensures a[0] == b[0]
  {
    FirstByte(a, b[0].begin);
    FirstByte(b, a[0].begin);
    assert a[0].begin == b[0].begin;
    CoversFirst(a, b[0].end);
    CoversFirst(b, a[0].end);
  }

  /** Two canonical lists that cover the same bytes are the same list. */
  lemma {:induction false} CanonicalUnique(a: seq<Range>, b: seq<Range>)
    requires Canonical(a) && Canonical(b) && SameCoverage(a, b)
    ensures a == b
    decreases |a|
  {
    if a == [] || b == [] {
      EmptyCovers(a);
      EmptyCovers(b);
    } else {
      SameFirst(a, b);
      forall x: nat
        ensures Covers(a[1..], x) <==> Covers(b[1..], x)
      {
        FirstByte(a, x);
        FirstByte(b, x);
      }
      CanonicalUnique(a[1..], b[1..]);
      assert a == [a[0]] + a[1..] && b == [b[0]] + b[1..];
    }
  }

  // ----- Splicing: how an in-place update relates to the reference -----

  lemma UnionPast(rs: seq<Range>, lo: nat, hi: nat)
    requires lo < hi && rs != [] && rs[0].begin <= rs[0].end < lo
    ensures Union(rs, lo, hi) == [rs[0]] + Union(rs[1..], lo, hi)
  {
  }

  lemma {:induction false} UnionSkips(p: seq<Range>, rest: seq<Range>, lo: nat, hi: nat)
    requires lo < hi
    requires forall i :: 0 <= i < |p| ==> p[i].begin <= p[i].end < lo
    ensures Union(p + rest, lo, hi) == p + Union(rest, lo, hi)
    decreases |p|
  {
    hide Union;
    if p == [] {
      assert p + rest == rest && p + Union(rest, lo, hi) == Union(rest, lo, hi);
    } else {
      assert (p + rest)[1..] == p[1..] + rest;
      UnionPast(p + rest, lo, hi);
      UnionSkips(p[1..], rest, lo, hi);
      assert p == [p[0]] + p[1..];
      assert [p[0]] + (p[1..] + Union(rest, lo, hi)) == [p[0]] + p[1..] + Union(rest, lo, hi);
    }
  }

  lemma UnionAbsorbs(p: seq<Range>, c: Range, rest: seq<Range>, lo: nat, hi: nat)
    requires lo < hi && c.begin <= hi && lo <= c.end
    requires forall i :: 0 <= i < |p| ==> p[i].begin <= p[i].end < Min(lo, c.begin)
    ensures Union(p + [c] + rest, lo, hi) == Union(p + rest, Min(lo, c.begin), Max(hi, c.end))
  {
    assert p + [c] + rest == p + ([c] + rest);
    UnionSkips(p, [c] + rest, lo, hi);
    assert ([c] + rest)[1..] == rest;
    UnionSkips(p, rest, Min(lo, c.begin), Max(hi, c.end));
  }

  lemma UnionInserts(p: seq<Range>, rest: seq<Range>, lo: nat, hi: nat)
    requires lo < hi
    requires forall i :: 0 <= i < |p| ==> p[i].begin <= p[i].end < lo
    requires rest == [] || hi < rest[0].begin
    ensures Union(p + rest, lo, hi) == p + [Range(lo, hi)] + rest
  {
    UnionSkips(p, rest, lo, hi);
    assert p + ([Range(lo, hi)] + rest) == p + [Range(lo, hi)] + rest;
  }

  lemma {:induction false} TotalConcat(a: seq<Range>, b: seq<Range>)
    ensures Total(a + b) == Total(a) + Total(b)
    decreases |a|
  {
    if a == [] {
      assert a + b == b;
    } else {
      assert (a + b)[1..] == a[1..] + b;
      TotalConcat(a[1..], b);
    }
  }

  lemma TotalSplice(p: seq<Range>, c: Range, rest: seq<Range>)
    ensures Total(p + [c] + rest) == Total(p + rest) + c.end - c.begin
  {
    TotalConcat(p, rest);
    TotalConcat(p, [c]);
    TotalConcat(p + [c], rest);
    assert [c][1..] == [];
  }

  function Without(rs: seq<Range>, at: nat): (w: seq<Range>)
    requires at < |rs|
    ensures |w| == |rs| - 1
    ensures forall i :: 0 <= i < |w| ==> w[i] == rs[if i < at then i else i + 1]
  {
    rs[..at] + rs[at + 1..]
  }

  function With(rs: seq<Range>, at: nat, r: Range): (w: seq<Range>)
    requires at <= |rs|
    ensures |w| == |rs| + 1
    ensures w[..at] == rs[..at] && w[at] == r && w[at + 1..] == rs[at..]
  {
    rs[..at] + [r] + rs[at..]
  }

  lemma WithoutCanonical(rs: seq<Range>, at: nat)
    requires Canonical(rs) && at < |rs|
    ensures Canonical(Without(rs, at))
  {
    hide Without;
  }

  lemma WithoutParts(rs: seq<Range>, at: nat)
    requires at < |rs|
    ensures Without(rs, at) == rs[..at] + rs[at + 1..]
  {
  }

  lemma WithoutTotal(rs: seq<Range>, at: nat)
    requires at < |rs|
    ensures Total(Without(rs, at)) == Total(rs) - (rs[at].end - rs[at].begin)
  {
    hide Total, Without;
    WithoutParts(rs, at);
    TotalSplice(rs[..at], rs[at], rs[at + 1..]);
    assert rs == rs[..at] + [rs[at]] + rs[at + 1..];
  }

  /** Erasing a range that touches the interval and widening the interval keeps the union. */
  lemma AbsorbAt(rs: seq<Range>, at: nat, lo: nat, hi: nat)
    requires Canonical(rs) && at < |rs| && lo < hi && rs[at].begin <= hi && lo <= rs[at].end
    requires forall i :: 0 <= i < at ==> rs[i].end < lo
    ensures Union(rs, lo, hi) == Union(Without(rs, at), Min(lo, rs[at].begin), Max(hi, rs[at].end))
  {
    hide Union;
    UnionAbsorbs(rs[..at], rs[at], rs[at + 1..], lo, hi);
    assert rs == rs[..at] + [rs[at]] + rs[at + 1..];
  }

  lemma WithCanonical(rs: seq<Range>, at: nat, r: Range)
    requires Canonical(rs) && at <= |rs| && r.begin < r.end
    requires forall i :: 0 <= i < at ==> rs[i].end < r.begin
    requires forall i :: at <= i < |rs| ==> r.end < rs[i].begin
    ensures Canonical(With(rs, at, r))
  {
    var w := With(rs, at, r);
    forall i | 0 <= i < |w|
      ensures w[i] == if i < at then rs[i] else if i == at then r else rs[i - 1]
    {
      if i > at {
        assert w[i] == w[at + 1..][i - at - 1];
      }
    }
  }

  lemma AroundGap(rs: seq<Range>, at: nat, lo: nat, hi: nat)
    requires Canonical(rs) && at <= |rs|
    requires forall i :: 0 <= i < at ==> rs[i].end < lo
    requires forall i :: at <= i < |rs| ==> hi < rs[i].begin
    ensures forall i :: 0 <= i < |rs[..at]| ==> rs[..at][i].begin <= rs[..at][i].end < lo
    ensures rs[at..] == [] || hi < rs[at..][0].begin
  {
  }

  lemma InsertAt(rs: seq<Range>, at: nat, lo: nat, hi: nat)
    requires Canonical(rs) && at <= |rs| && lo < hi
    requires forall i :: 0 <= i < at ==> rs[i].end < lo
    requires forall i :: at <= i < |rs| ==> hi < rs[i].begin
    ensures Union(rs, lo, hi) == With(rs, at, Range(lo, hi))
    ensures Total(With(rs, at, Range(lo, hi))) == Total(rs) + hi - lo
  {
    WithTotal(rs, at, Range(lo, hi));
    WithParts(rs, at, Range(lo, hi));
    AroundGap(rs, at, lo, hi);
    hide *;
    assert rs == rs[..at] + rs[at..];
    UnionInserts(rs[..at], rs[at..], lo, hi);
  }

  lemma WithParts(rs: seq<Range>, at: nat, r: Range)
    requires at <= |rs|
    ensures With(rs, at, r) == rs[..at] + [r] + rs[at..]
  {
  }

  lemma WithTotal(rs: seq<Range>, at: nat, r: Range)
    requires at <= |rs|
    ensures Total(With(rs, at, r)) == Total(rs) + r.end - r.begin
  {
    hide Total;
    assert rs == rs[..at] + rs[at..];
    TotalSplice(rs[..at], r, rs[at..]);
  }

  /** What `validate` accepts, in exact arithmetic. */
  predicate ValidRequest(offset: nat, length: nat, total: nat) {
    length > 0 && offset + length <= total
  }

  class RangeList {
    var ranges: seq<Range>
    var bytesCompleted: int

    ghost predicate Valid()
      reads this
    {
      Canonical(ranges) && bytesCompleted == Total(ranges)
    }

    constructor ()
      ensures Valid() && ranges == []
    {
      ranges, bytesCompleted := [], 0;
    }

    /** The first index whose begin (or end) reaches `value`. */
    method LowerBound(value: nat, byEnd: bool) returns (at: nat)
      requires Valid()
      ensures at <= |ranges|
      ensures forall i :: 0 <= i < at ==> (if byEnd then ranges[i].end else ranges[i].begin) < value
      ensures forall i :: at <= i < |ranges| ==> (if byEnd then ranges[i].end else ranges[i].begin) >= value
    {
      at := 0;
      var hi := |ranges|;
      while at < hi
        invariant at <= hi <= |ranges|
        invariant forall i :: 0 <= i < at ==> (if byEnd then ranges[i].end else ranges[i].begin) < value
        invariant forall i :: hi <= i < |ranges| ==> (if byEnd then ranges[i].end else ranges[i].begin) >= value
      {
        var mid := (at + hi) / 2;
        if (if byEnd then ranges[mid].end else ranges[mid].begin) < value {
          at := mid + 1;
        } else {
          hi := mid;
        }
      }
    }

    method Insert(offset: nat, length: nat, totalSize: nat) returns (status: Result<()>)
      requires Valid()
      modifies this
      ensures Valid()
      ensures status.Ok? <==> ValidRequest(offset, length, totalSize) && !Overlaps(old(ranges), offset, offset + length)
      ensures status.Ok? ==> ranges == Union(old(ranges), offset, offset + length)
      ensures status.Ok? ==> bytesCompleted == old(bytesCompleted) + length
      ensures status.Err? ==> ranges == old(ranges) && status == Err(InsertReason(ranges, offset, length, totalSize))
    {
      if length == 0 {
        return Err("range length must be greater than zero");
      }
      if offset > totalSize || length > totalSize - offset {
        return Err("range exceeds transfer size");
      }
      var lo, hi := offset, offset + length;
      var at := LowerBound(lo, false);
      if at != 0 && ranges[at - 1].end > lo {
        assert Inside(ranges, lo);
        return Err("range overlaps previous completed range");
      }
      if at != |ranges| && ranges[at].begin < hi {
        assert lo < ranges[at].end && !Inside(ranges, lo);
        return Err("range overlaps next completed range");
      }
      Coalesce(at, lo, hi);
      return Ok(());
    }

    /** The part of `insert` after the overlap tests: glue to the neighbours that touch. */
    method Coalesce(insertAt: nat, begin: nat, end: nat)
      requires Valid() && insertAt <= |ranges| && begin < end
      requires forall i :: 0 <= i < insertAt ==> ranges[i].end <= begin
      requires forall i :: insertAt <= i < |ranges| ==> end <= ranges[i].begin
      modifies this
      ensures Valid()
      ensures ranges == Union(old(ranges), begin, end)
      ensures bytesCompleted == old(bytesCompleted) + end - begin
    {
      hide Union, Total, Canonical;
      var at, lo := GlueLeft(insertAt, begin, end);
      var hi := GlueRight(at, lo, end);
      Place(at, lo, hi);
    }

    method GlueLeft(insertAt: nat, begin: nat, end: nat) returns (at: nat, lo: nat)
      requires Valid() && insertAt <= |ranges| && begin < end
      requires forall i :: 0 <= i < insertAt ==> ranges[i].end <= begin
      requires forall i :: insertAt <= i < |ranges| ==> end <= ranges[i].begin
      modifies this
      ensures Valid() && at <= |ranges| && lo < end
      ensures forall i :: 0 <= i < at ==> ranges[i].end < lo
      ensures forall i :: at <= i < |ranges| ==> end <= ranges[i].begin
      ensures Union(ranges, lo, end) == Union(old(ranges), begin, end)
      ensures bytesCompleted + (end - lo) == old(bytesCompleted) + (end - begin)
    {
      hide Union, Total, Without;
      at, lo := insertAt, begin;
      if at != 0 && ranges[at - 1].end == lo {
        AbsorbAt(ranges, at - 1, lo, end);
        lo := ranges[at - 1].begin;
        at := at - 1;
        EraseAt(at);
      }
    }

    method GlueRight(at: nat, lo: nat, end: nat) returns (hi: nat)
      requires Valid() && at <= |ranges| && lo < end
      requires forall i :: 0 <= i < at ==> ranges[i].end < lo
      requires forall i :: at <= i < |ranges| ==> end <= ranges[i].begin
      modifies this
      ensures Valid() && at <= |ranges| && lo < hi
      ensures forall i :: 0 <= i < at ==> ranges[i].end < lo
      ensures forall i :: at <= i < |ranges| ==> hi < ranges[i].begin
      ensures Union(ranges, lo, hi) == Union(old(ranges), lo, end)
      ensures bytesCompleted + (hi - lo) == old(bytesCompleted) + (end - lo)
    {
      hide Union, Total, Without;
      hi := end;
      if at != |ranges| && hi == ranges[at].begin {
        AbsorbAt(ranges, at, lo, hi);
        hi := ranges[at].end;
        EraseAt(at);
      }
    }

    method Place(at: nat, lo: nat, hi: nat)
      requires Valid() && at <= |ranges| && lo < hi
      requires forall i :: 0 <= i < at ==> ranges[i].end < lo
      requires forall i :: at <= i < |ranges| ==> hi < ranges[i].begin
      modifies this
      ensures Valid() && ranges == Union(old(ranges), lo, hi)
      ensures bytesCompleted == old(bytesCompleted) + hi - lo
    {
      hide Union, Total, With;
      InsertAt(ranges, at, lo, hi);
      WithCanonical(ranges, at, Range(lo, hi));
      ranges := With(ranges, at, Range(lo, hi));
      bytesCompleted := bytesCompleted + (hi - lo);
    }

    method EraseAt(at: nat)
      requires Valid() && at < |ranges|
      modifies this
      ensures Valid() && ranges == Without(old(ranges), at)
      ensures bytesCompleted == old(bytesCompleted) - (old(ranges[at]).end - old(ranges[at]).begin)
    {
      WithoutCanonical(ranges, at);
      WithoutTotal(ranges, at);
      bytesCompleted := bytesCompleted - (ranges[at].end - ranges[at].begin);
      ranges := Without(ranges, at);
    }

    method Merge(offset: nat, length: nat, totalSize: nat) returns (status: Result<()>)
      requires Valid()
      modifies this
      ensures Valid()
      ensures status.Ok? <==> ValidRequest(offset, length, totalSize)
      ensures status.Ok? ==> ranges == Union(old(ranges), offset, offset + length)
      ensures status.Err? ==> ranges == old(ranges) && status == Err(InsertReason(ranges, offset, length, totalSize))
    {
      hide Union, Total, Inside;
      if length == 0 {
        return Err("range length must be greater than zero");
      }
      if offset > totalSize || length > totalSize - offset {
        return Err("range exceeds transfer size");
      }
      var lo, hi := offset, offset + length;
      var at := LowerBound(lo, true);
      if at != 0 && ranges[at - 1].end >= lo {
        assert false;  // the source steps back here; the search by end already went far enough
      }
      hide Canonical;
      lo, hi := AbsorbFrom(at, lo, hi);
      at := LowerBound(lo, false);
      Place(at, lo, hi);
      return Ok(());
    }

    /** The erasing loop of `merge`: swallow every range that touches the growing interval. */
    method AbsorbFrom(at: nat, begin: nat, end: nat) returns (lo: nat, hi: nat)
      requires Valid() && begin < end && at <= |ranges|
      requires forall i :: 0 <= i < at ==> ranges[i].end < begin
      requires forall i :: at <= i < |ranges| ==> begin <= ranges[i].end
      modifies this
      ensures Valid() && lo < hi
      ensures Union(ranges, lo, hi) == Union(old(ranges), begin, end)
      ensures forall i :: 0 <= i < |ranges| ==> ranges[i].begin < ranges[i].end < lo || hi < ranges[i].begin
    {
      hide Union, Total, Without;
      lo, hi := begin, end;
      while at != |ranges| && ranges[at].begin <= hi
        invariant lo < hi && at <= |ranges| && Valid()
        invariant forall i :: 0 <= i < at ==> ranges[i].end < lo
        invariant forall i :: at <= i < |ranges| ==> lo <= ranges[i].end
        invariant Union(ranges, lo, hi) == Union(old(ranges), begin, end)
        decreases |ranges| - at
      {
        AbsorbAt(ranges, at, lo, hi);
        lo, hi := Min(lo, ranges[at].begin), Max(hi, ranges[at].end);
        EraseAt(at);
      }
    }

    /**
      The gaps, again in canonical form: exactly the bytes that no range covers, up to the total or to the
      last range's end if that is larger.  They stay within the total exactly when no range begins past it.
     */
    method MissingRanges(totalSize: nat) returns (missing: seq<Range>)
      requires Valid()
      ensures Canonical(missing)
      ensures forall x: nat :: Covers(missing, x) <==> x < Max(totalSize, LastEnd(ranges)) && !Covers(ranges, x)
      ensures Within(missing, totalSize) <==> ranges == [] || ranges[|ranges| - 1].begin <= totalSize
    {
      hide GapsUpTo, Canonical, Covers, LastEnd;
      missing := [];
      var expected: nat := 0;
      NoGaps(ranges);
      for k := 0 to |ranges|
        invariant GapsUpTo(ranges, k, missing, expected)
      {
        NextGap(ranges, k, missing, expected);
        if ranges[k].begin > expected {
          missing := missing + [Range(expected, ranges[k].begin)];
        }
        expected := Max(expected, ranges[k].end);
      }
      LastGap(ranges, missing, expected, totalSize);
      if expected < totalSize {
        missing := missing + [Range(expected, totalSize)];
      }
    }
  }

  /** `missing` is what the first `k` ranges leave uncovered below their end. */
  ghost predicate GapsUpTo(rs: seq<Range>, k: nat, missing: seq<Range>, expected: nat)
    requires k <= |rs|
  {
    && Canonical(missing) && expected == LastEnd(rs[..k])
    && (forall x: nat :: Covers(missing, x) <==> x < expected && !Covers(rs[..k], x))
    && (forall i :: 0 <= i < |missing| ==> k > 0 && missing[i].end <= rs[k - 1].begin)
    && (k > 0 && rs[k - 1].begin > 0 ==> missing != [] && missing[|missing| - 1].end == rs[k - 1].begin)
  }

  lemma NoGaps(rs: seq<Range>)
    ensures GapsUpTo(rs, 0, [], 0)
  {
  }

  lemma SnocCanonical(rs: seq<Range>, r: Range)
    requires Canonical(rs) && r.begin < r.end && forall i :: 0 <= i < |rs| ==> rs[i].end < r.begin
    ensures Canonical(rs + [r])
  {
  }

  /** Neighbours of a canonical list. */
  lemma Previous(rs: seq<Range>, k: nat)
    requires Canonical(rs) && k < |rs|
    ensures rs[k].begin < rs[k].end && (k > 0 ==> rs[k - 1].begin < rs[k - 1].end < rs[k].begin)
    ensures LastEnd(rs[..k]) == if k == 0 then 0 else rs[k - 1].end
  {
  }

  lemma NextGap(rs: seq<Range>, k: nat, missing: seq<Range>, expected: nat)
    requires Canonical(rs) && k < |rs| && GapsUpTo(rs, k, missing, expected)
    ensures var more := if rs[k].begin > expected then missing + [Range(expected, rs[k].begin)] else missing;
      GapsUpTo(rs, k + 1, more, Max(expected, rs[k].end))
  {
    var more := if rs[k].begin > expected then missing + [Range(expected, rs[k].begin)] else missing;
    Previous(rs, k);
    hide Canonical, Covers;
    assert rs[..k + 1] == rs[..k] + [rs[k]];
    if rs[k].begin > expected {
      SnocCanonical(missing, Range(expected, rs[k].begin));
    }
    forall x: nat
      ensures Covers(more, x) <==> x < rs[k].end && !Covers(rs[..k + 1], x)
    {
      CoversSnoc(rs[..k], rs[k], x);
      CoversSnoc(missing, Range(expected, rs[k].begin), x);
      PrefixBelow(rs, k, x);
    }
  }

  /** Ranges of a sorted prefix end by the end of its last. */
  lemma PrefixBelow(rs: seq<Range>, k: nat, x: nat)
    requires Canonical(rs) && k <= |rs|
    ensures Covers(rs[..k], x) ==> x < LastEnd(rs[..k])
  {
    if Covers(rs[..k], x) {
      var i :| 0 <= i < |rs[..k]| && rs[..k][i].begin <= x < rs[..k][i].end;
      assert rs[i].end <= rs[k - 1].end;
    }
  }

  lemma LastGap(rs: seq<Range>, missing: seq<Range>, expected: nat, totalSize: nat)
    requires Canonical(rs) && GapsUpTo(rs, |rs|, missing, expected)
    ensures var all := if expected < totalSize then missing + [Range(expected, totalSize)] else missing;
      && Canonical(all)
      && (forall x: nat :: Covers(all, x) <==> x < Max(totalSize, LastEnd(rs)) && !Covers(rs, x))
      && (Within(all, totalSize) <==> rs == [] || rs[|rs| - 1].begin <= totalSize)
  {
    var all := if expected < totalSize then missing + [Range(expected, totalSize)] else missing;
    assert rs[..|rs|] == rs;
    forall x: nat
      ensures Covers(all, x) <==> x < Max(totalSize, LastEnd(rs)) && !Covers(rs, x)
    {
      CoversSnoc(missing, Range(expected, totalSize), x);
      PrefixBelow(rs, |rs|, x);
    }
  }

  function LastEnd(rs: seq<Range>): nat {
    if rs == [] then 0 else rs[|rs| - 1].end
  }

  lemma CoversSnoc(rs: seq<Range>, r: Range, x: nat)
    ensures Covers(rs + [r], x) <==> Covers(rs, x) || r.begin <= x < r.end
  {
    var s := rs + [r];
    if r.begin <= x < r.end {
      assert s[|rs|] == r;
    }
    if Covers(rs, x) {
      var i :| 0 <= i < |rs| && rs[i].begin <= x < rs[i].end;
      assert s[i] == rs[i];
    }
  }

  // ----- The byte count -----

  ghost function Between(lo: nat, hi: nat): (s: set<nat>)
    ensures forall x: nat :: x in s <==> lo <= x < hi
    ensures lo <= hi ==> |s| == hi - lo
    decreases hi - lo
  {
    if lo >= hi then {} else {lo} + Between(lo + 1, hi)
  }

  /** The total of a canonical list is the number of bytes it covers. */
  lemma {:induction false} TotalCounts(rs: seq<Range>) returns (bytes: set<nat>)
    requires Canonical(rs)
    ensures |bytes| == Total(rs) && forall x: nat :: x in bytes <==> Covers(rs, x)
    decreases |rs|
  {
    if rs == [] {
      bytes := {};
    } else {
      var rest := TotalCounts(rs[1..]);
      var first := Between(rs[0].begin, rs[0].end);
      forall x: nat
        ensures Covers(rs, x) <==> x in first || x in rest
        ensures !(x in first && x in rest)
      {
        assert rs == [rs[0]] + rs[1..];
        CoversCons(rs[0], rs[1..], x);
      }
      bytes := first + rest;
      assert first !! rest;
    }
  }
}
