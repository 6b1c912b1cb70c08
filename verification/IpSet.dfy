/** Route sets and their complement (src/wintun/ipset.rs). */
module IpSets {
  import opened Words
  import opened Cidrs

  // ---------- the gaps the complement sweep visits ----------

  /** First address of the gap before entry `g`, or after the last entry when `g == |s|`. */
  function GapStart(s: seq<Cidr>, g: nat): int
    requires AllEntries(s) && g <= |s|
  {
    if g == 0 then 1 else s[g - 1].Last() + 1
  }

  function GapEnd(s: seq<Cidr>, g: nat): int
    requires AllEntries(s) && g <= |s|
  {
    if g == |s| then MAX else s[g].ip - 1
  }

  predicate InGap(s: seq<Cidr>, g: nat, a: nat)
    requires AllEntries(s) && g <= |s|
  {
    GapStart(s, g) <= a <= GapEnd(s, g)
  }

  /** How many of the first `n` gaps contain `a`. */
  function GapHits(s: seq<Cidr>, n: nat, a: nat): nat
    requires AllEntries(s) && n <= |s| + 1
  {
    if n == 0 then 0 else GapHits(s, n - 1, a) + if InGap(s, n - 1, a) then 1 else 0
  }

  lemma {:induction false} GapHitsPositive(s: seq<Cidr>, n: nat, a: nat)
    requires AllEntries(s) && n <= |s| + 1
    ensures GapHits(s, n, a) > 0 <==> exists g :: 0 <= g < n && InGap(s, g, a)
  {
    if n > 0 { GapHitsPositive(s, n - 1, a); }
  }

  /** `out` covers the first `n` gaps of `s`, each by blocks that cannot be enlarged within it. */
  ghost predicate FillsGaps(out: seq<Cidr>, s: seq<Cidr>, n: nat) {
    && AllEntries(out) && AllEntries(s) && n <= |s| + 1
    && (forall a: nat :: Hits(out, a) == GapHits(s, n, a))
    && (forall g :: 0 <= g < n ==> Maximal(out, GapStart(s, g), GapEnd(s, g)))
  }

  /** Where a gap follows entry `j`, no earlier entry reaches beyond `j`. */
  predicate NoStepBack(s: seq<Cidr>)
    requires AllEntries(s)
  {
    forall i, j :: 0 <= i < j < |s| ==> Follows(s, i, j)
  }

  predicate Follows(s: seq<Cidr>, i: nat, j: nat)
    requires AllEntries(s) && i < j < |s|
  {
    s[i].Last() > s[j].Last() ==> j + 1 < |s| && s[j + 1].ip <= s[j].Last() + 1
  }

  /** The same, said of the entries in any order: where `b` lies inside `a` and ends before it, some
      entry goes on behind `b`. */
  predicate Followed(cs: seq<Cidr>)
    requires AllEntries(cs)
  {
    forall a, b :: a in cs && b in cs && a.ip < b.ip && b.Last() < a.Last() ==> GoesOn(cs, b)
  }

  /** Some other entry starts inside `b` or right behind it, and does not end inside `b` from its start. */
  predicate GoesOn(cs: seq<Cidr>, b: Cidr)
    requires AllEntries(cs) && b.prefix <= 32
  {
    exists c :: c in cs && (b.ip < c.ip <= b.Last() + 1 || (c.ip == b.ip && b.Last() < c.Last()))
  }

  /** The same entries in address order. */
  ghost predicate Ordering(s: seq<Cidr>, cs: seq<Cidr>) {
    AllEntries(cs) && AllEntries(s) && InAddressOrder(s) && forall c :: c in s <==> c in cs
  }

  lemma Ordered(s: seq<Cidr>, i: nat, j: nat)
    requires AllEntries(s) && InAddressOrder(s) && i < j < |s|
    ensures s[i].ip < s[j].ip || (s[i].ip == s[j].ip && s[i].Last() <= s[j].Last())
  {
  }

  lemma NoStepBackFollowed(s: seq<Cidr>, cs: seq<Cidr>, a: Cidr, b: Cidr)
    requires Ordering(s, cs) && NoStepBack(s)
    requires a in cs && b in cs && a.ip < b.ip && b.Last() < a.Last()
    ensures GoesOn(cs, b)
  {
    hide Pow2, Aligned;
    var i :| 0 <= i < |s| && s[i] == a;
    var j :| 0 <= j < |s| && s[j] == b;
    while j + 1 < |s| && s[j + 1].ip == b.ip && s[j + 1].Last() == b.Last()
      invariant 0 <= j < |s| && s[j].ip == b.ip && s[j].Last() == b.Last()
    {
      j := j + 1;
    }
    assert i < j;
    assert Follows(s, i, j);
    assert s[j + 1] in cs;
  }

  /** In address order, what goes on behind an entry is behind it in the list. */
  lemma NextGoesOn(s: seq<Cidr>, j: nat, k: nat)
    requires AllEntries(s) && InAddressOrder(s) && j < |s| && k < |s|
    requires s[j].ip < s[k].ip <= s[j].Last() + 1 || (s[k].ip == s[j].ip && s[j].Last() < s[k].Last())
    ensures j + 1 < |s| && s[j + 1].ip <= s[j].Last() + 1
  {
    hide InAddressOrder, Aligned, Pow2;
    if k < j { Ordered(s, k, j); }
    if j + 1 < k { Ordered(s, j + 1, k); }
  }

  lemma FollowedNoStepBack(s: seq<Cidr>, cs: seq<Cidr>, i: nat, j: nat)
    requires Ordering(s, cs) && Followed(cs) && i < j < |s|
    ensures Follows(s, i, j)
  {
    hide InAddressOrder, Aligned, Pow2;
    if s[i].Last() > s[j].Last() {
      var a, b := s[i], s[j];
      Ordered(s, i, j);
      assert a in cs && b in cs;
      assert GoesOn(cs, b);
      var c :| c in cs && (b.ip < c.ip <= b.Last() + 1 || (c.ip == b.ip && b.Last() < c.Last()));
      var k :| 0 <= k < |s| && s[k] == c;
      NextGoesOn(s, j, k);
    }
  }

  /** The sweep over the sorted entries never steps back exactly if the entries are followed. */
  lemma NoStepBackIff(s: seq<Cidr>, cs: seq<Cidr>)
    requires Ordering(s, cs)
    ensures NoStepBack(s) <==> Followed(cs)
  {
    hide GoesOn, Follows, InAddressOrder, Pow2, Aligned;
    if NoStepBack(s) {
      forall a, b | a in cs && b in cs && a.ip < b.ip && b.Last() < a.Last() ensures GoesOn(cs, b) {
        NoStepBackFollowed(s, cs, a, b);
      }
    }
    if Followed(cs) {
      forall i, j | 0 <= i < j < |s| ensures Follows(s, i, j) { FollowedNoStepBack(s, cs, i, j); }
    }
  }

  /** Enough: any two entries that overlap share their first or their last address. */
  lemma SharedEndsSuffice(cs: seq<Cidr>)
    requires AllEntries(cs)
    requires forall a, b :: a in cs && b in cs && a.ip <= b.ip <= a.Last() ==> a.ip == b.ip || a.Last() == b.Last()
    ensures Followed(cs)
  {
  }

  /** Every address is in exactly one of the two sets. */
  ghost predicate IsComplement(out: seq<Cidr>, s: seq<Cidr>)
    requires AllBlocks(out) && AllBlocks(s)
  {
    forall a: nat :: a <= MAX ==> (Hits(out, a) > 0 <==> Hits(s, a) == 0)
  }

  lemma HitsAt(s: seq<Cidr>, i: nat, a: nat)
    requires AllBlocks(s) && i < |s| && s[i].Contains(a)
    ensures Hits(s, a) > 0
  {
    HitsPositive(s, a);
  }

  /** No gap of a sweep that never steps back contains a covered address. */
  lemma CoveredMeansNoGap(s: seq<Cidr>, a: nat, g: nat)
    requires AllEntries(s) && Sorted(s) && NoStepBack(s)
    requires Hits(s, a) > 0 && g <= |s|
    ensures !InGap(s, g, a)
  {
    hide Hits, Pow2, Aligned;
    HitsPositive(s, a);
    var c :| c in s && c.Contains(a);
    var i :| 0 <= i < |s| && s[i] == c;
    assert i < g - 1 ==> Follows(s, i, g - 1);
  }

  /** An uncovered address beyond 0 lies in a gap. */
  lemma UncoveredMeansGap(s: seq<Cidr>, a: nat) returns (g: nat)
    requires AllEntries(s) && Sorted(s) && 0 < a <= MAX && Hits(s, a) == 0
    ensures g <= |s| && InGap(s, g, a)
  {
    g := 0;
    while g < |s| && s[g].ip <= a
      invariant g <= |s|
      invariant g > 0 ==> s[g - 1].ip <= a
    {
      g := g + 1;
    }
    if g > 0 && a <= s[g - 1].Last() { HitsAt(s, g - 1, a); }
  }

  /** The sweep computes the complement exactly when address 0 is covered and it never steps
      back across a gap. */
  lemma ComplementIff(out: seq<Cidr>, s: seq<Cidr>)
    requires Sorted(s) && FillsGaps(out, s, |s| + 1)
    ensures IsComplement(out, s) <==> s != [] && s[0].ip == 0 && NoStepBack(s)
  {
    var n := |s| + 1;
    GapHitsPositive(s, n, 0);
    assert Hits(out, 0) == GapHits(s, n, 0);
    if s != [] && s[0].ip == 0 && NoStepBack(s) {
      HitsAt(s, 0, 0);
      forall a: nat | a <= MAX ensures Hits(out, a) > 0 <==> Hits(s, a) == 0 {
        GapHitsPositive(s, n, a);
        if Hits(s, a) > 0 {
          forall g | 0 <= g < n ensures !InGap(s, g, a) { CoveredMeansNoGap(s, a, g); }
        } else {
          var g := UncoveredMeansGap(s, a);
        }
      }
    }
    if IsComplement(out, s) {
      HitsPositive(s, 0);
      var c :| c in s && c.Contains(0);
      var k :| 0 <= k < |s| && s[k] == c;
      if k > 0 { assert s[0].AtMost(s[k]); }
      forall i, j | 0 <= i < j < |s| ensures Follows(s, i, j) {
        if !Follows(s, i, j) { SteppingBackLeaks(out, s, i, j); }
      }
    }
  }

  /** Stepping back across a gap puts a covered address into the result. */
  lemma SteppingBackLeaks(out: seq<Cidr>, s: seq<Cidr>, i: nat, j: nat)
    requires Sorted(s) && FillsGaps(out, s, |s| + 1)
    requires i < j < |s| && !Follows(s, i, j)
    ensures var a := s[j].Last() + 1; a <= MAX && Hits(out, a) > 0 && Hits(s, a) > 0
  {
    hide Hits, GapHits, Pow2, Aligned;
    var a := s[j].Last() + 1;
    assert s[i].AtMost(s[j]);
    HitsAt(s, i, a);
    GapHitsPositive(s, |s| + 1, a);
    assert InGap(s, j + 1, a);
  }

  lemma ZeroFirst(s: seq<Cidr>, cs: seq<Cidr>)
    requires Ordering(s, cs)
    ensures s != [] && s[0].ip == 0 <==> exists c :: c in cs && c.ip == 0
  {
    hide InAddressOrder, AllEntries;
    if s != [] { assert s[0] in s; }
    if c :| c in cs && c.ip == 0 {
      var k :| 0 <= k < |s| && s[k] == c;
      if k > 0 { Ordered(s, 0, k); }
    }
  }

  ghost predicate SameCover(s: seq<Cidr>, cs: seq<Cidr>) {
    AllBlocks(s) && AllBlocks(cs) && forall a: nat :: Hits(s, a) == Hits(cs, a)
  }

  lemma SameHits(out: seq<Cidr>, s: seq<Cidr>, cs: seq<Cidr>)
    requires AllBlocks(out) && SameCover(s, cs)
    ensures IsComplement(out, s) <==> IsComplement(out, cs)
  {
  }

  lemma SortIsOrdering(cs: seq<Cidr>)
    requires AllEntries(cs)
    ensures Sorted(Sort(cs)) && Ordering(Sort(cs), cs) && SameCover(Sort(cs), cs)
  {
    hide Sort, Hits, InAddressOrder;
    SortCorrect(cs);
    forall a: nat ensures Hits(Sort(cs), a) == Hits(cs, a) { SortHits(cs, a); }
  }

  /** The same of the entries before they are sorted: the sweep computes their complement exactly when
      address 0 is covered and the entries are followed. */
  lemma ComplementOfEntries(out: seq<Cidr>, s: seq<Cidr>, cs: seq<Cidr>)
    requires AllEntries(cs) && AllEntries(out) && AllEntries(s) && Sorted(s) && Ordering(s, cs) && SameCover(s, cs)
    requires FillsGaps(out, s, |s| + 1)
    ensures IsComplement(out, cs) <==> (exists c :: c in cs && c.ip == 0) && Followed(cs)
  {
    hide FillsGaps, Followed, NoStepBack, IsComplement, Ordering, SameCover, Sorted, Pow2, Aligned;
    NoStepBackIff(s, cs);
    ZeroFirst(s, cs);
    ComplementIff(out, s);
    SameHits(out, s, cs);
  }

  /** Two gaps of a sweep that never steps back have no address in common. */
  lemma GapsDisjoint(s: seq<Cidr>, g: nat, h: nat, a: nat)
    requires AllEntries(s) && Sorted(s) && NoStepBack(s) && g < h <= |s|
    requires InGap(s, g, a)
    ensures !InGap(s, h, a)
  {
    assert g < h - 1 ==> Follows(s, g, h - 1);
  }

  lemma {:induction false} GapHitsAtMostOne(s: seq<Cidr>, n: nat, a: nat)
    requires AllEntries(s) && Sorted(s) && NoStepBack(s) && n <= |s| + 1
    ensures GapHits(s, n, a) <= 1
  {
    hide Pow2, Aligned;
    if n > 0 {
      GapHitsAtMostOne(s, n - 1, a);
      GapHitsPositive(s, n - 1, a);
      forall g | 0 <= g < n - 1 && InGap(s, g, a) ensures !InGap(s, n - 1, a) {
        GapsDisjoint(s, g, n - 1, a);
      }
    }
  }

  /** A block without covered addresses lies inside one gap. */
  lemma FreeBlockInOneGap(s: seq<Cidr>, c: Cidr) returns (g: nat)
    requires AllEntries(s) && Sorted(s) && c.IsBlock()
    requires forall a: nat :: c.Contains(a) ==> Hits(s, a) == 0
    requires c.ip > 0
    ensures g <= |s| && Within(c, GapStart(s, g), GapEnd(s, g))
  {
    assert c.Contains(c.ip);
    g := UncoveredMeansGap(s, c.ip);
    if g < |s| && c.Last() >= s[g].ip {
      assert c.Contains(s[g].ip);
      HitsAt(s, g, s[g].ip);
    }
  }

  /** When the result is the complement, its blocks are disjoint and no other list of CIDR blocks
      with the same addresses is shorter. */
  lemma ComplementIsMinimal(out: seq<Cidr>, s: seq<Cidr>, other: seq<Cidr>)
    requires Sorted(s) && FillsGaps(out, s, |s| + 1) && IsComplement(out, s)
    requires AllBlocks(other) && IsComplement(other, s)
    ensures forall a: nat :: Hits(out, a) <= 1
    ensures |out| <= |other|
  {
    ComplementIff(out, s);
    forall a: nat ensures Hits(out, a) <= 1 { GapHitsAtMostOne(s, |s| + 1, a); }
    HitsAt(s, 0, 0);
    forall c | c in other ensures Absorbed(c, out) {
      forall a: nat | c.Contains(a) ensures Hits(s, a) == 0 { HitsPositive(other, a); }
      assert c.Contains(c.ip);
      var g := FreeBlockInOneGap(s, c);
      assert Maximal(out, GapStart(s, g), GapEnd(s, g));
    }
    forall b | b in out ensures Hits(other, b.ip) > 0 {
      HitsPositive(out, b.ip);
      assert b.Contains(b.ip);
    }
    FewestBlocks(out, other);
  }

  /** Nesting without a shared right end does break the complement: 0.0.0.0/1 and 128.0.0.0/1
      cover everything, but with 16.0.0.0/4 listed as well 32.0.0.0 ends up in the result. */
  lemma NestedEntryBreaksComplement(out: seq<Cidr>)
    requires FillsGaps(out, [Cidr(0, 1), Cidr(0x1000_0000, 4), Cidr(0x8000_0000, 1)], 4)
    ensures Hits(out, 0x2000_0000) > 0
    ensures Hits([Cidr(0, 1), Cidr(0x1000_0000, 4), Cidr(0x8000_0000, 1)], 0x2000_0000) > 0
  {
    var s := [Cidr(0, 1), Cidr(0x1000_0000, 4), Cidr(0x8000_0000, 1)];
    assert Pow2(28) == 0x1000_0000 && Pow2(31) == 0x8000_0000 by {
      WordSize();
      assert Pow2(30) == 0x4000_0000;
    }
    assert s[1].Last() == 0x1FFF_FFFF && s[0].Last() == 0x7FFF_FFFF;
    SteppingBackLeaks(out, s, 0, 1);
  }

  // ---------- the set ----------

  lemma NoGapsYet(s: seq<Cidr>)
    requires AllEntries(s)
    ensures FillsGaps([], s, 0)
  {
  }

  lemma FillNextGap(out: seq<Cidr>, more: seq<Cidr>, s: seq<Cidr>, g: nat)
    requires FillsGaps(out, s, g) && g <= |s|
    requires if GapStart(s, g) <= GapEnd(s, g) then Partition(more, GapStart(s, g), GapEnd(s, g)) else more == []
    ensures FillsGaps(out + more, s, g + 1)
  {
    forall a: nat ensures Hits(out + more, a) == GapHits(s, g + 1, a) {
      HitsConcat(out, more, a);
    }
    forall h | 0 <= h <= g ensures Maximal(out + more, GapStart(s, h), GapEnd(s, h)) {
      var part := if h < g then out else more;
      forall c: Cidr | c.IsBlock() && Within(c, GapStart(s, h), GapEnd(s, h))
        ensures Absorbed(c, out + more)
      {
        assert Absorbed(c, part);
        var d :| d in part && Within(c, d.ip, d.Last());
        assert d in out + more;
      }
    }
  }

  lemma SortKeepsFill(out: seq<Cidr>, s: seq<Cidr>, n: nat)
    requires FillsGaps(out, s, n)
    ensures FillsGaps(Sort(out), s, n)
  {
    SortCorrect(out);
    forall a: nat ensures Hits(Sort(out), a) == GapHits(s, n, a) { SortHits(out, a); }
    forall g | 0 <= g < n ensures Maximal(Sort(out), GapStart(s, g), GapEnd(s, g)) {
      forall c: Cidr | c.IsBlock() && Within(c, GapStart(s, g), GapEnd(s, g))
        ensures Absorbed(c, Sort(out))
      {
        assert Absorbed(c, out);
        var d :| d in out && Within(c, d.ip, d.Last());
        assert d in Sort(out);
      }
    }
  }

  class IPSet {
    var data: seq<Cidr>

    predicate Valid()
      reads this
    {
      AllEntries(data)
    }

    constructor ()
      ensures Valid() && data == []
    {
      data := [];
    }

    method Add(ip: nat, prefix: nat)
      requires Valid() && ip <= MAX && 1 <= prefix <= 32
      modifies this
      ensures Valid() && data == old(data) + [New(ip, prefix)]
    {
      data := data + [New(ip, prefix)];
    }

    /** `ok` is false where `range_to_cidr` panics. */
    method AddRange(left: nat, right: nat) returns (ok: bool, ghost added: seq<Cidr>)
      requires Valid() && left <= MAX && right <= MAX
      modifies this
      ensures Valid() && data == old(data) + added
      ensures ok <==> left >= right || (0 < left && right < MAX)
      ensures ok ==> if left <= right then Partition(added, left, right) else added == []
    {
      if left > right {
        return true, [];
      }
      var cidrs := RangeToCidr(left, right);
      if cidrs.None? {
        return false, [];
      }
      data := data + cidrs.value;
      return true, cidrs.value;
    }

    method Build()
      requires Valid()
      modifies this
      ensures Valid() && data == Sort(old(data)) && Sorted(data) && InAddressOrder(data)
    {
      SortCorrect(data);
      data := Sort(data);
    }

    /** The loop of `!set`: the gaps before each entry of the sorted data; `r` is where the last
        entry ends. */
    method CollectGaps() returns (gaps: IPSet, r: nat)
      requires Valid() && Sorted(data)
      ensures fresh(gaps) && gaps.Valid() && FillsGaps(gaps.data, data, |data|)
      ensures r == if data == [] then 0 else data[|data| - 1].Last()
    {
      hide FillsGaps, Partition;
      gaps := new IPSet();
      NoGapsYet(data);
      r := 0;
      var i := 0;
      while i < |data|
        invariant i <= |data|
        invariant r == if i == 0 then 0 else data[i - 1].Last()
        invariant fresh(gaps) && gaps.Valid() && FillsGaps(gaps.data, data, i)
      {
        ghost var out := gaps.data;
        var left, right := data[i].ip, data[i].RangeEnd();
        assert right == data[i].Last();
        ghost var more := [];
        if left > 0 && r < MAX {
          var ok;
          ok, more := gaps.AddRange(r + 1, left - 1);
        }
        assert gaps.data == out + more;
        FillNextGap(out, more, data, i);
        r := right;
        i := i + 1;
      }
    }

    /** `!set`: sorts the entries and collects the gaps between neighbours. It is defined only
        if the last entry reaches the end of the address space or stops one address short. */
    method Complement() returns (inverse: IPSet?)
      requires Valid()
      modifies this
      ensures Valid() && data == Sort(old(data)) && Sorted(data) && InAddressOrder(data)
      ensures inverse != null <==> data != [] && data[|data| - 1].Last() >= MAX - 1
      ensures inverse != null ==> fresh(inverse) && inverse.Valid() && Sorted(inverse.data)
      ensures inverse != null ==> FillsGaps(inverse.data, data, |data| + 1)
      ensures inverse != null ==>
        (IsComplement(inverse.data, old(data)) <==> (exists c :: c in old(data) && c.ip == 0) && Followed(old(data)))
    {
      hide FillsGaps, IsComplement, Followed, Sort, InAddressOrder, Ordering, SameCover;
      ghost var entries := data;
      Build();
      var gaps, r := CollectGaps();
      ghost var out := gaps.data;
      ghost var more := [];
      if r < MAX {
        var ok;
        ok, more := gaps.AddRange(r + 1, MAX);
        if !ok {
          return null;
        }
      }
      FillNextGap(out, more, data, |data|);
      assert gaps.data == out + more;
      SortKeepsFill(gaps.data, data, |data| + 1);
      gaps.Build();
      SortIsOrdering(entries);
      ComplementOfEntries(gaps.data, data, entries);
      return gaps;
    }

    method AddLines(lines: seq<(nat, nat)>)
      requires Valid() && ValidLines(lines)
      modifies this
      ensures Valid() && data == old(data) + Entries(lines)
    {
      var i := 0;
      while i < |lines|
        invariant i <= |lines| && Valid() && data == old(data) + Entries(lines)[..i]
      {
        Add(lines[i].0, lines[i].1);
        assert Entries(lines)[..i + 1] == Entries(lines)[..i] + [Entries(lines)[i]];
        i := i + 1;
      }
    }
  }

  /** The blocks `with_file` adds before inverting: private, loopback, link-local, multicast,
      reserved and broadcast addresses. */
  function ReservedBlocks(): (r: seq<(nat, nat)>)
    ensures ValidLines(r) && |r| == 9 && r[0] == (0, 8) && r[8] == (MAX, 32)
  {
    [(0, 8), (0x0A00_0000, 8), (0x7F00_0000, 8), (0xA9FE_0000, 16), (0xAC10_0000, 12),
     (0xC0A8_0000, 16), (0xE000_0000, 4), (0xF000_0000, 4), (MAX, 32)]
  }

  predicate ValidLines(lines: seq<(nat, nat)>) {
    forall i :: 0 <= i < |lines| ==> lines[i].0 <= MAX && 1 <= lines[i].1 <= 32
  }

  function Entries(lines: seq<(nat, nat)>): (cs: seq<Cidr>)
    requires ValidLines(lines)
    ensures |cs| == |lines| && AllEntries(cs)
    ensures forall i :: 0 <= i < |cs| ==> cs[i] == New(lines[i].0, lines[i].1)
  {
    seq(|lines|, i requires 0 <= i < |lines| => New(lines[i].0, lines[i].1))
  }

  /** An entry at each end of the address space pins both ends of the sweep. */
  lemma EndsPinned(cs: seq<Cidr>, i: nat, j: nat)
    requires AllEntries(cs) && i < |cs| && j < |cs| && cs[i].ip == 0 && cs[j].ip == MAX
    ensures PinnedAtBothEnds(Sort(cs))
  {
    hide Sort, Pow2, Aligned;
    SortCorrect(cs);
    var s := Sort(cs);
    assert cs[i] in s && cs[j] in s;
    var low :| 0 <= low < |s| && s[low] == cs[i];
    if low > 0 { assert s[0].AtMost(s[low]); }
    var high :| 0 <= high < |s| && s[high] == cs[j];
    if high < |s| - 1 { assert s[high].AtMost(s[|s| - 1]); }
  }

  predicate PinnedAtBothEnds(s: seq<Cidr>) {
    AllEntries(s) && s != [] && s[0].ip == 0 && s[|s| - 1].Last() == MAX
  }

  lemma EndBlocks()
    ensures New(0, 8).ip == 0 && New(MAX, 32).ip == MAX
  {
    hide New;
    assert New(0, 8).Contains(0) && New(MAX, 32).Contains(MAX);
  }

  lemma InverseEnds(lines: seq<(nat, nat)>, reserved: seq<(nat, nat)>)
    requires ValidLines(lines) && ValidLines(reserved)
    requires |reserved| == 9 && reserved[0] == (0, 8) && reserved[8] == (MAX, 32)
    ensures ValidLines(lines + reserved) && Entries(lines + reserved) == Entries(lines) + Entries(reserved)
    ensures PinnedAtBothEnds(Sort(Entries(lines + reserved)))
  {
    hide New, PinnedAtBothEnds;
    var cs := Entries(lines + reserved);
    assert cs == Entries(lines) + Entries(reserved);
    EndBlocks();
    EndsPinned(cs, |lines|, |lines| + 8);
  }

  /** This network, private, loopback, link-local, multicast, reserved and broadcast addresses, by
      their octets. */
  predicate Reserved(a: nat) {
    var first, second := a / 0x100_0000, a / 0x1_0000 % 256;
    || first == 0 || first == 10 || first == 127 || first >= 224
    || (first == 169 && second == 254)
    || (first == 172 && 16 <= second <= 31)
    || (first == 192 && second == 168)
  }

  lemma {:induction false} MultipleAligned(m: nat, k: nat)
    ensures Aligned(m * Pow2(k), k)
  {
    if k > 0 {
      MultipleAligned(m, k - 1);
      var p := Pow2(k - 1);
      assert m * (2 * p) == 2 * (m * p);
      assert (2 * (m * p)) / 2 == m * p;
    }
  }

  /** An address that is a multiple of its block's size starts the block. */
  lemma BlockAt(ip: nat, prefix: nat, m: nat)
    requires 1 <= prefix <= 32 && ip <= MAX && ip == m * Pow2(32 - prefix)
    ensures New(ip, prefix) == Cidr(ip, prefix)
  {
    hide New, Aligned, Pow2;
    MultipleAligned(m, 32 - prefix);
    FloorUnique(ip, New(ip, prefix).ip, ip, 32 - prefix);
  }

  lemma Sizes()
    ensures Pow2(0) == 1 && Pow2(16) == 0x1_0000 && Pow2(20) == 0x10_0000 && Pow2(24) == 0x100_0000 && Pow2(28) == 0x1000_0000
  {
    assert Pow2(8) == 256;
    assert Pow2(16) == 0x1_0000 by { assert Pow2(12) == 4096; }
    assert Pow2(24) == 0x100_0000 by { assert Pow2(20) == 0x10_0000; }
  }

  lemma ReservedEntries()
    ensures Entries(ReservedBlocks()) ==
      [Cidr(0, 8), Cidr(10 * 0x100_0000, 8), Cidr(127 * 0x100_0000, 8), Cidr(0xA9FE * 0x1_0000, 16), Cidr(0xAC1 * 0x10_0000, 12),
       Cidr(0xC0A8 * 0x1_0000, 16), Cidr(14 * 0x1000_0000, 4), Cidr(15 * 0x1000_0000, 4), Cidr(MAX, 32)]
  {
    hide New, Pow2;
    Sizes();
    BlockAt(0, 8, 0);
    BlockAt(0x0A00_0000, 8, 10);
    BlockAt(0x7F00_0000, 8, 127);
    BlockAt(0xA9FE_0000, 16, 0xA9FE);
    BlockAt(0xAC10_0000, 12, 0xAC1);
    BlockAt(0xC0A8_0000, 16, 0xC0A8);
    BlockAt(0xE000_0000, 4, 14);
    BlockAt(0xF000_0000, 4, 15);
    BlockAt(MAX, 32, MAX);
  }

  /** Whether `a` lies in the block of `size` addresses from `ip` on. */
  predicate In(a: nat, ip: nat, size: nat) {
    ip <= a < ip + size
  }

  lemma ReservedIntervals(a: nat)
    requires a <= MAX
    ensures Reserved(a) <==>
      || In(a, 0, 0x100_0000) || In(a, 10 * 0x100_0000, 0x100_0000) || In(a, 127 * 0x100_0000, 0x100_0000)
      || In(a, 0xA9FE * 0x1_0000, 0x1_0000) || In(a, 0xAC1 * 0x10_0000, 0x10_0000) || In(a, 0xC0A8 * 0x1_0000, 0x1_0000)
      || In(a, 14 * 0x1000_0000, 0x1000_0000) || In(a, 15 * 0x1000_0000, 0x1000_0000) || In(a, MAX, 1)
  {
    var first, pair := a / 0x100_0000, a / 0x1_0000;
    var second := pair % 256;
    assert pair == 256 * first + second && second < 256 by { assert pair / 256 == first; }
    assert 0x1_0000 * pair <= a < 0x1_0000 * pair + 0x1_0000;
  }

  lemma ContainsIsIn(c: Cidr, a: nat, size: nat)
    requires c.prefix <= 32 && c.Size() == size
    ensures c.Contains(a) <==> In(a, c.ip, size)
  {
  }

  lemma NineHits(cs: seq<Cidr>, a: nat)
    requires AllBlocks(cs) && |cs| == 9
    ensures Hits(cs, a) > 0 <==>
      || cs[0].Contains(a) || cs[1].Contains(a) || cs[2].Contains(a) || cs[3].Contains(a) || cs[4].Contains(a)
      || cs[5].Contains(a) || cs[6].Contains(a) || cs[7].Contains(a) || cs[8].Contains(a)
  {
    hide Hits, Pow2, Aligned;
    HitsPositive(cs, a);
    assert forall i :: 0 <= i < 9 ==> cs[i] in cs;
    if c :| c in cs && c.Contains(a) {
      var i :| 0 <= i < 9 && cs[i] == c;
    }
  }

  /** The blocks added before inverting cover exactly the reserved addresses. */
  lemma ReservedCover(a: nat)
    requires a <= MAX
    ensures Hits(Entries(ReservedBlocks()), a) > 0 <==> Reserved(a)
  {
    hide Entries, ReservedBlocks, Pow2, Aligned, Hits, Reserved, In, New, And, ValidLines;
    Sizes();
    ReservedEntries();
    var cs := Entries(ReservedBlocks());
    NineHits(cs, a);
    ReservedIntervals(a);
    ContainsIsIn(cs[0], a, 0x100_0000);
    ContainsIsIn(cs[1], a, 0x100_0000);
    ContainsIsIn(cs[2], a, 0x100_0000);
    ContainsIsIn(cs[3], a, 0x1_0000);
    ContainsIsIn(cs[4], a, 0x10_0000);
    ContainsIsIn(cs[5], a, 0x1_0000);
    ContainsIsIn(cs[6], a, 0x1000_0000);
    ContainsIsIn(cs[7], a, 0x1000_0000);
    ContainsIsIn(cs[8], a, 1);
  }

  /** The entries of a file and the reserved blocks. */
  function WithReserved(lines: seq<(nat, nat)>): (cs: seq<Cidr>)
    requires ValidLines(lines)
    ensures AllEntries(cs)
  {
    Entries(lines) + Entries(ReservedBlocks())
  }

  lemma StartsAtZero(lines: seq<(nat, nat)>)
    requires ValidLines(lines)
    ensures PinnedAtBothEnds(Sort(WithReserved(lines))) && exists c :: c in WithReserved(lines) && c.ip == 0
  {
    hide New, PinnedAtBothEnds, Sort;
    InverseEnds(lines, ReservedBlocks());
    EndBlocks();
    assert WithReserved(lines)[|lines|] == New(0, 8);
  }

  /** An address that is neither listed nor reserved. */
  predicate IsOther(lines: seq<(nat, nat)>, a: nat)
    requires ValidLines(lines)
  {
    Hits(Entries(lines), a) == 0 && !Reserved(a)
  }

  /** Exactly the other addresses. */
  ghost predicate AllOthers(out: seq<Cidr>, lines: seq<(nat, nat)>)
    requires AllBlocks(out) && ValidLines(lines)
  {
    forall a: nat :: a <= MAX ==> (Hits(out, a) > 0 <==> IsOther(lines, a))
  }

  lemma NeitherHit(lines: seq<(nat, nat)>, a: nat)
    requires ValidLines(lines) && a <= MAX
    ensures Hits(WithReserved(lines), a) == 0 <==> IsOther(lines, a)
  {
    hide Entries, Reserved, Hits, ReservedBlocks;
    ReservedCover(a);
    HitsConcat(Entries(lines), Entries(ReservedBlocks()), a);
  }

  lemma SameOthers(out: seq<Cidr>, cs: seq<Cidr>, lines: seq<(nat, nat)>)
    requires AllBlocks(out) && AllBlocks(cs) && ValidLines(lines)
    requires forall a: nat :: a <= MAX ==> (Hits(cs, a) == 0 <==> IsOther(lines, a))
    ensures AllOthers(out, lines) <==> IsComplement(out, cs)
  {
    hide Hits, IsOther, IsEntry, Entries;
  }

  lemma AllOthersIff(out: seq<Cidr>, lines: seq<(nat, nat)>)
    requires AllBlocks(out) && ValidLines(lines)
    ensures AllOthers(out, lines) <==> IsComplement(out, WithReserved(lines))
  {
    hide Hits, IsOther, WithReserved, AllOthers, IsComplement, Entries;
    var cs := WithReserved(lines);
    forall a: nat | a <= MAX ensures Hits(cs, a) == 0 <==> IsOther(lines, a) { NeitherHit(lines, a); }
    SameOthers(out, cs, lines);
  }

  /** The gaps of the sorted entries, and so all other addresses exactly if the entries are followed. */
  ghost predicate IsInverse(out: seq<Cidr>, lines: seq<(nat, nat)>) {
    && AllEntries(out) && ValidLines(lines)
    && FillsGaps(out, Sort(WithReserved(lines)), |Sort(WithReserved(lines))| + 1)
    && (AllOthers(out, lines) <==> Followed(WithReserved(lines)))
  }

  /** `with_file` after its lines are parsed. With `inverse` it always succeeds, and the result has
      exactly the addresses that are neither in the file nor reserved if and only if wherever an entry
      lies inside another and ends before it, some entry goes on behind it. */
  method WithFile(lines: seq<(nat, nat)>, inverse: bool) returns (ipset: IPSet)
    requires ValidLines(lines)
    ensures fresh(ipset) && ipset.Valid()
    ensures if inverse then IsInverse(ipset.data, lines) else ipset.data == Sort(Entries(lines))
  {
    hide Entries, Sort, IsInverse;
    ipset := new IPSet();
    ipset.AddLines(lines);
    assert ipset.data == Entries(lines);
    if inverse {
      ipset := Inverse(ipset, lines);
    } else {
      ipset.Build();
    }
  }

  /** The inverse branch. */
  method Inverse(ipset: IPSet, ghost lines: seq<(nat, nat)>) returns (inverse: IPSet)
    requires ValidLines(lines) && ipset.Valid() && ipset.data == Entries(lines)
    modifies ipset
    ensures fresh(inverse) && inverse.Valid() && IsInverse(inverse.data, lines)
  {
    hide Entries, ReservedBlocks, Sort, FillsGaps, Followed, IsComplement, AllOthers, New, Pow2, Aligned, Hits;
    ipset.AddLines(ReservedBlocks());
    assert ipset.data == WithReserved(lines);
    StartsAtZero(lines);
    var complement := ipset.Complement();
    AllOthersIff(complement.data, lines);
    inverse := complement;
  }
}
