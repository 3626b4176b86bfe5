/**
  The two representations of progress in a manifest, completed ranges and verified chunks: their
  text, the parsers' loops, and the check that both cover the same bytes.
 */
module Progress {
  import opened Common
  import opened TextCodec
  import opened RangeLists
  import opened Checksum

  datatype Record = Record(chunkId: uint64, offset: uint64, length: uint64, algorithm: ChecksumAlgorithm, value: uint32)

  // ----- Sorting -----

  /** The comparator: by offset, then by chunk id. */
  predicate Less(a: Record, b: Record) {
    a.offset < b.offset || (a.offset == b.offset && a.chunkId < b.chunkId)
  }

  function InsertSorted(c: Record, s: seq<Record>): (r: seq<Record>)
    ensures multiset(r) == multiset{c} + multiset(s)
    decreases |s|
  {
    if s == [] || !Less(s[0], c) then
      assert multiset([c] + s) == multiset{c} + multiset(s);
      [c] + s
    else
      assert s == [s[0]] + s[1..];
      [s[0]] + InsertSorted(c, s[1..])
  }

  function Sorted(cs: seq<Record>): (r: seq<Record>)
    ensures multiset(r) == multiset(cs)
  {
    if cs == [] then [] else
      assert cs == [cs[0]] + cs[1..];
      InsertSorted(cs[0], Sorted(cs[1..]))
  }

  ghost predicate IsSorted(cs: seq<Record>) {
    forall i, j :: 0 <= i < j < |cs| ==> !Less(cs[j], cs[i])
  }

  lemma {:induction false} InsertKeepsSorted(c: Record, s: seq<Record>)
    requires IsSorted(s)
    ensures IsSorted(InsertSorted(c, s))
    decreases |s|
  {
    if s != [] && Less(s[0], c) {
      InsertKeepsSorted(c, s[1..]);
      var t := InsertSorted(c, s[1..]);
      forall j | 0 <= j < |t|
        ensures !Less(t[j], s[0])
      {
        assert t[j] in multiset(t);
        assert t[j] == c || t[j] in s[1..];
      }
    }
  }

  lemma {:induction false} SortedIsSorted(cs: seq<Record>)
    ensures IsSorted(Sorted(cs))
    decreases |cs|
  {
    if cs != [] {
      SortedIsSorted(cs[1..]);
      InsertKeepsSorted(cs[0], Sorted(cs[1..]));
    }
  }

  ghost predicate StrictlySorted(cs: seq<Record>) {
    forall i, j :: 0 <= i < j < |cs| ==> cs[i].offset < cs[j].offset
  }

  lemma SameHead(a: seq<Record>, b: seq<Record>)
    requires StrictlySorted(a) && IsSorted(b) && multiset(a) == multiset(b) && a != [] && b != []
    ensures a[0] == b[0]
  {
    assert a[0] in multiset(b) && b[0] in multiset(a);
    var i :| 0 <= i < |b| && b[i] == a[0];
    var j :| 0 <= j < |a| && a[j] == b[0];
    assert j > 0 ==> a[0].offset < a[j].offset;
    assert i > 0 ==> !Less(b[i], b[0]);
  }

  lemma TailMultiset(a: seq<Record>)
    requires a != []
    ensures multiset(a[1..]) == multiset(a) - multiset{a[0]}
  {
    assert a == [a[0]] + a[1..];
  }

  /** A permutation in sorted order is unique when offsets are distinct. */
  lemma {:induction false} SortedUnique(a: seq<Record>, b: seq<Record>)
    requires StrictlySorted(a) && IsSorted(b) && multiset(a) == multiset(b)
    ensures a == b
    decreases |a|
  {
    assert |multiset(a)| == |a| && |multiset(b)| == |b|;
    if a != [] {
      SameHead(a, b);
      TailMultiset(a);
      TailMultiset(b);
      SortedUnique(a[1..], b[1..]);
      assert a == [a[0]] + a[1..] && b == [b[0]] + b[1..];
    }
  }

  // ----- Coverage of the chunks -----

  predicate ValidRecord(c: Record, total: nat) {
    ValidRequest(c.offset, c.length, total)
  }

  predicate Apart(c: Record, d: Record) {
    c.offset + c.length <= d.offset || d.offset + d.length <= c.offset
  }

  ghost predicate AllValid(cs: seq<Record>, total: nat) {
    forall c :: c in cs ==> ValidRecord(c, total)
  }

  ghost predicate ApartFrom(c: Record, cs: seq<Record>) {
    forall d :: d in cs ==> Apart(c, d)
  }

  ghost predicate PairwiseApart(cs: seq<Record>)
    decreases |cs|
  {
    cs == [] || (ApartFrom(cs[0], cs[1..]) && PairwiseApart(cs[1..]))
  }

  ghost predicate ChunkCovers(cs: seq<Record>, x: nat) {
    exists c :: c in cs && c.offset <= x < c.offset + c.length
  }

  /** The insert loop over records, in the order given. */
  function InsertAll(rs: seq<Range>, cs: seq<Record>, total: nat): Result<seq<Range>>
    decreases |cs|
  {
    if cs == [] then Ok(rs)
    else if !ValidRecord(cs[0], total) || Overlaps(rs, cs[0].offset, cs[0].offset + cs[0].length)
    then Err(InsertReason(rs, cs[0].offset, cs[0].length, total))
    else InsertAll(Union(rs, cs[0].offset, cs[0].offset + cs[0].length), cs[1..], total)
  }

  lemma OverlapsUnion(rs: seq<Range>, lo: nat, hi: nat, lo': nat, hi': nat)
    requires Canonical(rs) && lo < hi && lo' < hi'
    ensures Overlaps(Union(rs, lo, hi), lo', hi') <==> Overlaps(rs, lo', hi') || !(hi <= lo' || hi' <= lo)
  {
    UnionCanonical(rs, lo, hi, -1);
    var u := Union(rs, lo, hi);
    OverlapsMeaning(u, lo', hi');
    OverlapsMeaning(rs, lo', hi');
    if Overlaps(u, lo', hi') {
      var x: nat :| lo' <= x < hi' && Covers(u, x);
      UnionCovers(rs, lo, hi, x);
    }
    if Overlaps(rs, lo', hi') {
      var x: nat :| lo' <= x < hi' && Covers(rs, x);
      UnionCovers(rs, lo, hi, x);
    }
    if !(hi <= lo' || hi' <= lo) {
      UnionCovers(rs, lo, hi, Max(lo, lo'));
    }
  }

  ghost predicate ClearOf(rs: seq<Range>, cs: seq<Record>) {
    forall c :: c in cs ==> !Overlaps(rs, c.offset, c.offset + c.length)
  }

  lemma ClearOfUnion(rs: seq<Range>, c: Record, t: seq<Record>, total: nat)
    requires Canonical(rs) && ValidRecord(c, total) && AllValid(t, total)
    ensures ClearOf(Union(rs, c.offset, c.offset + c.length), t) <==> ClearOf(rs, t) && ApartFrom(c, t)
  {
    hide Union, Overlaps;
    forall d | d in t
      ensures Overlaps(Union(rs, c.offset, c.offset + c.length), d.offset, d.offset + d.length)
        <==> Overlaps(rs, d.offset, d.offset + d.length) || !Apart(c, d)
    {
      OverlapsUnion(rs, c.offset, c.offset + c.length, d.offset, d.offset + d.length);
    }
  }

  /** Every insert succeeds exactly when the chunks are in range and pairwise apart, in any order. */
  lemma {:induction false} InsertAllSucceeds(rs: seq<Range>, cs: seq<Record>, total: nat)
    requires Canonical(rs)
    ensures InsertAll(rs, cs, total).Ok? <==> AllValid(cs, total) && PairwiseApart(cs) && ClearOf(rs, cs)
    decreases |cs|
  {
    hide Union, Overlaps;
    if cs != [] {
      var c := cs[0];
      var t := cs[1..];
      assert cs == [c] + t;
      if ValidRecord(c, total) && !Overlaps(rs, c.offset, c.offset + c.length) {
        UnionCanonical(rs, c.offset, c.offset + c.length, -1);
        InsertAllSucceeds(Union(rs, c.offset, c.offset + c.length), t, total);
        if AllValid(t, total) {
          ClearOfUnion(rs, c, t, total);
        }
      }
    }
  }

  lemma {:induction false} InsertAllCovers(rs: seq<Range>, cs: seq<Record>, total: nat)
    requires Canonical(rs) && Within(rs, total) && InsertAll(rs, cs, total).Ok?
    ensures var u := InsertAll(rs, cs, total).value;
            Canonical(u) && Within(u, total) && forall x: nat :: Covers(u, x) <==> Covers(rs, x) || ChunkCovers(cs, x)
    decreases |cs|
  {
    if cs != [] {
      var c := cs[0];
      var lo, hi := c.offset, c.offset + c.length;
      UnionCanonical(rs, lo, hi, -1);
      UnionWithin(rs, lo, hi, total);
      InsertAllCovers(Union(rs, lo, hi), cs[1..], total);
      assert cs == [c] + cs[1..];
      forall x: nat
        ensures Covers(Union(rs, lo, hi), x) || ChunkCovers(cs[1..], x) <==> Covers(rs, x) || ChunkCovers(cs, x)
      {
        UnionCovers(rs, lo, hi, x);
      }
    }
  }

  // ----- Sorting does not change any of it -----

  lemma SortedMembers(cs: seq<Record>)
    ensures forall c :: c in Sorted(cs) <==> c in cs
  {
    forall c
      ensures c in Sorted(cs) <==> c in cs
    {
      assert c in Sorted(cs) <==> c in multiset(Sorted(cs));
      assert c in cs <==> c in multiset(cs);
    }
  }

  lemma InsertSortedMembers(c: Record, s: seq<Record>)
    ensures forall d :: d in InsertSorted(c, s) <==> d == c || d in s
  {
    hide InsertSorted;
    forall d
      ensures d in InsertSorted(c, s) <==> d == c || d in s
    {
      assert d in InsertSorted(c, s) <==> d in multiset(InsertSorted(c, s));
      assert d in s <==> d in multiset(s);
    }
  }

  lemma {:induction false} InsertSortedApart(c: Record, s: seq<Record>)
    ensures PairwiseApart(InsertSorted(c, s)) <==> ApartFrom(c, s) && PairwiseApart(s)
    decreases |s|
  {
    if s == [] || !Less(s[0], c) {
      assert ([c] + s)[1..] == s;
    } else {
      var h, t := s[0], s[1..];
      InsertSortedApart(c, t);
      InsertSortedMembers(c, t);
      assert InsertSorted(c, s) == [h] + InsertSorted(c, t);
      ConsApart(h, InsertSorted(c, t));
      assert ApartFrom(h, InsertSorted(c, t)) <==> ApartFrom(h, t) && Apart(h, c);
      assert s == [h] + t;
      assert ApartFrom(c, s) <==> ApartFrom(c, t) && Apart(c, h);
    }
  }

  lemma ConsApart(h: Record, t: seq<Record>)
    ensures PairwiseApart([h] + t) <==> ApartFrom(h, t) && PairwiseApart(t)
  {
    assert ([h] + t)[1..] == t;
  }

  lemma {:induction false} SortedApart(cs: seq<Record>)
    ensures PairwiseApart(Sorted(cs)) <==> PairwiseApart(cs)
    decreases |cs|
  {
    if cs != [] {
      SortedApart(cs[1..]);
      InsertSortedApart(cs[0], Sorted(cs[1..]));
      SortedMembers(cs[1..]);
    }
  }

  ghost predicate Disjoint(cs: seq<Record>, total: nat) {
    AllValid(cs, total) && PairwiseApart(cs)
  }

  /** Inserting in any order, or in sorted order, succeeds together and gives the same ranges. */
  lemma SortedInserts(cs: seq<Record>, total: nat)
    ensures InsertAll([], cs, total).Ok? <==> Disjoint(cs, total)
    ensures InsertAll([], Sorted(cs), total).Ok? <==> Disjoint(cs, total)
    ensures Disjoint(cs, total) ==> InsertAll([], Sorted(cs), total) == InsertAll([], cs, total)
  {
    InsertAllSucceeds([], cs, total);
    InsertAllSucceeds([], Sorted(cs), total);
    SortedMembers(cs);
    SortedApart(cs);
    if Disjoint(cs, total) {
      InsertAllCovers([], cs, total);
      InsertAllCovers([], Sorted(cs), total);
      CanonicalUnique(InsertAll([], Sorted(cs), total).value, InsertAll([], cs, total).value);
    }
  }

  lemma {:induction false} ApartStrict(cs: seq<Record>, total: nat)
    requires IsSorted(cs) && Disjoint(cs, total)
    ensures StrictlySorted(cs)
    decreases |cs|
  {
    if cs != [] {
      assert cs == [cs[0]] + cs[1..];
      ApartStrict(cs[1..], total);
      forall j | 1 <= j < |cs|
        ensures cs[0].offset < cs[j].offset
      {
        assert cs[j] in cs[1..];
        assert ValidRecord(cs[0], total) && ValidRecord(cs[j], total);
      }
    }
  }

  lemma SortedStrict(cs: seq<Record>, total: nat)
    requires Disjoint(cs, total)
    ensures StrictlySorted(Sorted(cs)) && Disjoint(Sorted(cs), total)
  {
    SortedIsSorted(cs);
    SortedMembers(cs);
    SortedApart(cs);
    ApartStrict(Sorted(cs), total);
  }

  /** Permuting disjoint chunks does not change their sorted order. */
  lemma PermutationSorts(cs: seq<Record>, ds: seq<Record>, total: nat)
    requires multiset(cs) == multiset(ds) && Disjoint(cs, total)
    ensures Sorted(cs) == Sorted(ds)
  {
    SortedStrict(cs, total);
    SortedIsSorted(ds);
    SortedUnique(Sorted(cs), Sorted(ds));
  }

  lemma SortedIdempotent(cs: seq<Record>, total: nat)
    requires IsSorted(cs) && Disjoint(cs, total)
    ensures Sorted(cs) == cs
  {
    ApartStrict(cs, total);
    SortedIsSorted(cs);
    SortedUnique(cs, Sorted(cs));
  }
}
