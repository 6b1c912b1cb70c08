/** CIDR blocks and the conversion of an address range into the shortest list of them
    (src/wintun/ipset.rs). A block is an aligned power-of-two interval, as in
    section 3.1 of RFC 4632. */
module Cidrs {
  import opened Options
  import opened Words

  datatype Cidr = Cidr(ip: nat, prefix: nat) {
    /** `!((1 << (32 - prefix)) - 1)`; a prefix of 0 would shift by the word size. */
    function Mask(): (m: nat)
      requires 1 <= prefix <= 32
    {
      ShiftFits(32 - prefix);
      Not(Pow2(32 - prefix) - 1)
    }

    /** The last address, as `range` computes it. */
    function RangeEnd(): nat
      requires 1 <= prefix <= 32
    {
      ip + Not(Mask())
    }

    function Size(): nat
      requires prefix <= 32
    {
      Pow2(32 - prefix)
    }

    function Last(): nat
      requires prefix <= 32
    {
      ip + Size() - 1
    }

    predicate IsBlock() {
      prefix <= 32 && Aligned(ip, 32 - prefix) && Last() <= MAX
    }

    predicate Contains(a: nat)
      requires prefix <= 32
    {
      ip <= a <= Last()
    }

    /** `Ord`: by first address, then the smaller block first. */
    predicate AtMost(other: Cidr) {
      ip < other.ip || (ip == other.ip && prefix >= other.prefix)
    }
  }

  /** A block that `Mask` can describe. */
  predicate IsEntry(c: Cidr) {
    c.prefix >= 1 && c.IsBlock()
  }

  lemma ShiftFits(s: nat)
    requires s <= 32
    ensures Pow2(s) - 1 <= MAX
  {
    WordSize();
    Pow2Monotone(s, 32);
  }

  /** `Cidr::new`: clear the host bits. */
  function New(ip: nat, prefix: nat): (c: Cidr)
    requires ip <= MAX && 1 <= prefix <= 32
    ensures IsEntry(c) && c.prefix == prefix && c.Contains(ip) && c.RangeEnd() == c.Last()
  {
    MaskClearsLowBits(ip, 32 - prefix);
    var c := Cidr(And(ip, Cidr(ip, prefix).Mask()), prefix);
    assert c.Last() <= MAX by { BlockFits(c); }
    c
  }

  lemma BlockFits(c: Cidr)
    requires c.prefix <= 32 && c.ip <= MAX && Aligned(c.ip, 32 - c.prefix)
    ensures c.Last() <= MAX
  {
    WordSize();
    AlignedZero32(32 - c.prefix);
    AlignedApart(c.ip, MAX + 1, 32 - c.prefix);
  }

  lemma AlignedZero32(k: nat)
    requires k <= 32
    ensures Aligned(MAX + 1, k)
  {
    WordSize();
    PowerAligned(32);
    AlignedWeaken(MAX + 1, k, 32);
  }

  lemma {:induction false} PowerAligned(k: nat)
    ensures Aligned(Pow2(k), k)
  {
    if k > 0 {
      PowerAligned(k - 1);
      assert Pow2(k) / 2 == Pow2(k - 1);
    }
  }

  predicate AllEntries(cs: seq<Cidr>) {
    forall i :: 0 <= i < |cs| ==> IsEntry(cs[i])
  }

  predicate AllBlocks(cs: seq<Cidr>) {
    forall i :: 0 <= i < |cs| ==> cs[i].IsBlock()
  }

  // ---------- how often a list of blocks covers an address ----------

  /** In how many blocks of `cs` the address `a` lies. */
  function Hits(cs: seq<Cidr>, a: nat): nat
    requires AllBlocks(cs)
  {
    if cs == [] then 0
    else
      assert cs[0] in cs;
      (if cs[0].Contains(a) then 1 else 0) + Hits(cs[1..], a)
  }

  lemma {:induction false} HitsConcat(xs: seq<Cidr>, ys: seq<Cidr>, a: nat)
    requires AllBlocks(xs) && AllBlocks(ys)
    ensures AllBlocks(xs + ys) && Hits(xs + ys, a) == Hits(xs, a) + Hits(ys, a)
  {
    if xs == [] {
      assert xs + ys == ys;
    } else {
      HitsConcat(xs[1..], ys, a);
      assert (xs + ys)[1..] == xs[1..] + ys;
    }
  }

  lemma {:induction false} HitsPositive(cs: seq<Cidr>, a: nat)
    requires AllBlocks(cs)
    ensures Hits(cs, a) > 0 <==> exists c :: c in cs && c.Contains(a)
  {
    if cs != [] {
      HitsPositive(cs[1..], a);
      assert forall c :: c in cs <==> c == cs[0] || c in cs[1..];
    }
  }

  // ---------- sorting ----------

  function Insert(c: Cidr, cs: seq<Cidr>): seq<Cidr> {
    if cs == [] || c.AtMost(cs[0]) then [c] + cs else [cs[0]] + Insert(c, cs[1..])
  }

  /** `Vec::sort` under `Ord for Cidr`. The order is total, so there is one sorted permutation. */
  function Sort(cs: seq<Cidr>): seq<Cidr> {
    if cs == [] then [] else Insert(cs[0], Sort(cs[1..]))
  }

  predicate Sorted(cs: seq<Cidr>) {
    forall i, j :: 0 <= i < j < |cs| ==> cs[i].AtMost(cs[j])
  }

  lemma {:induction false} InsertPermutes(c: Cidr, cs: seq<Cidr>)
    ensures multiset(Insert(c, cs)) == multiset{c} + multiset(cs)
  {
    if cs != [] && !c.AtMost(cs[0]) {
      InsertPermutes(c, cs[1..]);
      assert cs == [cs[0]] + cs[1..];
    }
  }

  lemma {:induction false} InsertSorted(c: Cidr, cs: seq<Cidr>)
    requires Sorted(cs)
    ensures Sorted(Insert(c, cs))
  {
    if cs != [] && !c.AtMost(cs[0]) {
      var rest := cs[1..];
      InsertSorted(c, rest);
      InsertPermutes(c, rest);
      var r := Insert(c, rest);
      forall k | 0 <= k < |r| ensures cs[0].AtMost(r[k]) {
        assert r[k] in multiset(r);
        assert r[k] == c || r[k] in rest;
      }
    }
  }

  lemma {:induction false} SortPermutes(cs: seq<Cidr>)
    ensures multiset(Sort(cs)) == multiset(cs) && Sorted(Sort(cs))
  {
    if cs != [] {
      SortPermutes(cs[1..]);
      InsertPermutes(cs[0], Sort(cs[1..]));
      InsertSorted(cs[0], Sort(cs[1..]));
      assert cs == [cs[0]] + cs[1..];
    }
  }

  /** Ordered by first address, and by last address among those with the same first one. */
  predicate InAddressOrder(cs: seq<Cidr>)
    requires AllEntries(cs)
  {
    forall i, j :: 0 <= i < j < |cs| ==>
      cs[i].ip < cs[j].ip || (cs[i].ip == cs[j].ip && cs[i].Last() <= cs[j].Last())
  }

  lemma SortedByAddress(cs: seq<Cidr>)
    requires AllEntries(cs) && Sorted(cs)
    ensures InAddressOrder(cs)
  {
    hide Pow2, Aligned;
    forall i, j | 0 <= i < j < |cs|
      ensures cs[i].ip < cs[j].ip || (cs[i].ip == cs[j].ip && cs[i].Last() <= cs[j].Last())
    {
      assert cs[i].AtMost(cs[j]);
      if cs[i].ip == cs[j].ip { Pow2Monotone(32 - cs[i].prefix, 32 - cs[j].prefix); }
    }
  }

  lemma SortCorrect(cs: seq<Cidr>)
    ensures Sorted(Sort(cs)) && |Sort(cs)| == |cs|
    ensures forall c :: c in Sort(cs) <==> c in cs
    ensures AllEntries(cs) ==> AllEntries(Sort(cs)) && InAddressOrder(Sort(cs))
  {
    var s := Sort(cs);
    SortPermutes(cs);
    assert |multiset(s)| == |multiset(cs)|;
    assert forall c :: c in s <==> c in multiset(s);
    assert forall i :: 0 <= i < |s| ==> s[i] in s;
    if AllEntries(cs) {
      assert AllEntries(s);
      SortedByAddress(s);
    }
  }

  lemma {:induction false} InsertHits(c: Cidr, cs: seq<Cidr>, a: nat)
    requires c.IsBlock() && AllBlocks(cs)
    ensures AllBlocks(Insert(c, cs))
    ensures Hits(Insert(c, cs), a) == (if c.Contains(a) then 1 else 0) + Hits(cs, a)
  {
    if cs != [] && !c.AtMost(cs[0]) {
      InsertHits(c, cs[1..], a);
    }
  }

  lemma {:induction false} SortHits(cs: seq<Cidr>, a: nat)
    requires AllBlocks(cs)
    ensures AllBlocks(Sort(cs)) && Hits(Sort(cs), a) == Hits(cs, a)
  {
    if cs != [] {
      SortHits(cs[1..], a);
      InsertHits(cs[0], Sort(cs[1..]), a);
    }
  }

  // ---------- a list no other list can beat ----------

  predicate Within(c: Cidr, left: int, right: int)
    requires c.IsBlock()
  {
    left <= c.ip && c.Last() <= right
  }

  predicate Absorbed(c: Cidr, cs: seq<Cidr>)
    requires c.IsBlock() && AllBlocks(cs)
  {
    exists b :: b in cs && Within(c, b.ip, b.Last())
  }

  /** Every block inside the range lies inside a single block of `cs`. */
  ghost predicate Maximal(cs: seq<Cidr>, left: int, right: int)
    requires AllBlocks(cs)
  {
    forall c: Cidr {:trigger Within(c, left, right)} :: c.IsBlock() && Within(c, left, right) ==> Absorbed(c, cs)
  }

  ghost predicate CoversExactly(cs: seq<Cidr>, left: int, right: int)
    requires AllBlocks(cs)
  {
    forall a: nat :: Hits(cs, a) == if left <= a <= right then 1 else 0
  }

  /** The blocks of `cs` that are not inside `b`. */
  function Outside(cs: seq<Cidr>, b: Cidr): (r: seq<Cidr>)
    requires b.IsBlock() && AllBlocks(cs)
    ensures AllBlocks(r) && forall c :: c in r <==> c in cs && !Within(c, b.ip, b.Last())
    ensures |r| <= |cs|
    ensures (exists c :: c in cs && Within(c, b.ip, b.Last())) ==> |r| < |cs|
  {
    if cs == [] then []
    else if Within(cs[0], b.ip, b.Last()) then Outside(cs[1..], b)
    else [cs[0]] + Outside(cs[1..], b)
  }

  /** Without the first of disjoint blocks the others are disjoint, and none starts inside it. */
  lemma DropFirst(cs: seq<Cidr>)
    requires AllBlocks(cs) && cs != [] && forall a: nat :: Hits(cs, a) <= 1
    ensures forall a: nat :: Hits(cs[1..], a) <= 1
    ensures forall b :: b in cs[1..] ==> !cs[0].Contains(b.ip)
  {
    forall a: nat ensures Hits(cs[1..], a) <= 1 {
      assert Hits(cs, a) >= Hits(cs[1..], a);
    }
    forall b | b in cs[1..] ensures !cs[0].Contains(b.ip) {
      assert b.Contains(b.ip);
      HitsPositive(cs[1..], b.ip);
      assert Hits(cs, b.ip) <= 1;
    }
  }

  /** The block of `other` around the first address of a later block is not inside the first. */
  lemma StartKept(cs: seq<Cidr>, other: seq<Cidr>, k: nat)
    requires AllBlocks(cs) && AllBlocks(other) && 0 < k < |cs|
    requires forall a: nat :: Hits(cs, a) <= 1
    requires forall c :: c in other ==> Absorbed(c, cs)
    requires Hits(other, cs[k].ip) > 0
    ensures Hits(Outside(other, cs[0]), cs[k].ip) > 0
  {
    hide Hits, Pow2, Aligned;
    var c := AbsorbedOwner(cs, other, k);
    DropFirst(cs);
    assert cs[k] == cs[1..][k - 1];
    HitsPositive(Outside(other, cs[0]), cs[k].ip);
  }

  /** Counting argument: if the blocks of `cs` are disjoint, each contains a whole block of
      `other` around its first address, and no block of `other` straddles two of them,
      then `other` is at least as long. */
  lemma {:induction false} FewestBlocks(cs: seq<Cidr>, other: seq<Cidr>)
    requires AllBlocks(cs) && AllBlocks(other)
    requires forall a: nat :: Hits(cs, a) <= 1
    requires forall c :: c in other ==> Absorbed(c, cs)
    requires forall b :: b in cs ==> Hits(other, b.ip) > 0
    ensures |cs| <= |other|
  {
    if cs != [] {
      hide Hits, Pow2, Aligned;
      var b, rest := cs[0], cs[1..];
      DropFirst(cs);
      var kept := Outside(other, b);
      var c := AbsorbedOwner(cs, other, 0);
      forall d | d in kept ensures Absorbed(d, rest) {
        var e :| e in cs && Within(d, e.ip, e.Last());
        assert e in rest;
      }
      forall b2 | b2 in rest ensures Hits(kept, b2.ip) > 0 {
        var k :| 0 <= k < |rest| && rest[k] == b2;
        StartKept(cs, other, k + 1);
      }
      FewestBlocks(rest, kept);
    }
  }

  /** The block of `other` around the first address of `cs[i]` lies inside `cs[i]`. */
  lemma AbsorbedOwner(cs: seq<Cidr>, other: seq<Cidr>, i: nat) returns (c: Cidr)
    requires AllBlocks(cs) && AllBlocks(other) && i < |cs|
    requires Hits(cs, cs[i].ip) <= 1 && Hits(other, cs[i].ip) > 0
    requires forall c :: c in other ==> Absorbed(c, cs)
    ensures c in other && c.Contains(cs[i].ip) && Within(c, cs[i].ip, cs[i].Last())
  {
    HitsPositive(other, cs[i].ip);
    c :| c in other && c.Contains(cs[i].ip);
    OwnerUnique(cs, i, c, cs[i].ip);
  }

  /** With disjoint blocks, a block around an address of `cs[i]` can only be absorbed by `cs[i]`. */
  lemma {:induction false} OwnerUnique(cs: seq<Cidr>, i: nat, c: Cidr, a: nat)
    requires AllBlocks(cs) && i < |cs| && c.IsBlock() && Absorbed(c, cs)
    requires Hits(cs, a) <= 1 && cs[i].Contains(a) && c.Contains(a)
    ensures Within(c, cs[i].ip, cs[i].Last())
  {
    var b :| b in cs && Within(c, b.ip, b.Last());
    var rest := cs[1..];
    HitsPositive(rest, a);
    assert b != cs[0] ==> b in rest;
    if i > 0 {
      assert rest[i - 1] == cs[i];
      OwnerUnique(rest, i - 1, c, a);
    }
  }

  // ---------- the two greedy loops ----------

  /** The largest block ending at `hi` leaves every other block on one side of its start. */
  lemma RightGreedy(c: Cidr, ip: nat, hi: nat, s: nat)
    requires c.IsBlock() && c.Last() <= hi
    requires s == TrailingOnes(hi) && Aligned(ip, s) && ip + Pow2(s) == hi + 1
    ensures c.Last() < ip || ip <= c.ip
  {
    hide Aligned, Pow2, TrailingZeros, TrailingOnes;
    var j := 32 - c.prefix;
    TrailingOnesAreZerosOfSuccessor(hi);
    AlignedShift(c.ip, j);
    if c.Last() >= ip {
      if j <= s {
        AlignedWeaken(ip, j, s);
        if c.ip < ip { AlignedApart(c.ip, ip, j); }
      } else {
        AlignedWeaken(c.Last() + 1, s, j);
        AlignedApart(ip, c.Last() + 1, s);
        TrailingZerosIsLargestAlignment(hi + 1, j);
        assert false;
      }
    }
  }

  /** The largest block starting at `lo` leaves every later block on one side of its end. */
  lemma LeftGreedy(c: Cidr, lo: nat)
    requires c.IsBlock() && 0 < lo <= c.ip
    ensures lo + Pow2(TrailingZeros(lo)) <= c.ip || c.Last() < lo + Pow2(TrailingZeros(lo))
  {
    hide Aligned, Pow2, TrailingZeros;
    var s, j := TrailingZeros(lo), 32 - c.prefix;
    TrailingZerosIsLargestAlignment(lo, s);
    AlignedShift(lo, s);
    var end := lo + Pow2(s);
    if c.ip < end {
      if j <= s {
        AlignedWeaken(end, j, s);
        AlignedApart(c.ip, end, j);
      } else {
        AlignedWeaken(c.ip, s, j);
        if lo < c.ip { AlignedApart(lo, c.ip, s); }
        TrailingZerosIsLargestAlignment(lo, j);
        assert false;
      }
    }
  }

  /** Removing or adding the lowest set bit leaves a word with more trailing zeros. */
  lemma {:induction false} LowestBitCarries(x: nat)
    requires x > 0
    ensures var s := TrailingZeros(x);
            x >= Pow2(s) && Aligned(x - Pow2(s), s + 1) && Aligned(x + Pow2(s), s + 1)
  {
    if x % 2 == 0 {
      LowestBitCarries(x / 2);
      var p := Pow2(TrailingZeros(x / 2));
      assert (x - 2 * p) / 2 == x / 2 - p && (x + 2 * p) / 2 == x / 2 + p;
    }
  }

  /** A block that avoids both ends of the address space has at most 31 free bits. */
  lemma InnerBlockSmall(ip: nat, s: nat)
    requires ip > 0 && Aligned(ip, s) && ip + Pow2(s) <= MAX
    ensures s <= 30
  {
    AlignedAtLeast(ip, s);
    WordSize();
    Pow2Reflects(s + 1, 32);
  }

  lemma OneBitsOfMax()
    ensures TrailingOnes(MAX) == 32
  {
    TrailingOnesAreZerosOfSuccessor(MAX);
    AlignedZero32(32);
    TrailingZerosIsLargestAlignment(MAX + 1, 32);
    if Aligned(MAX + 1, 33) { AlignedAtLeast(MAX + 1, 33); WordSize(); }
    TrailingZerosIsLargestAlignment(MAX + 1, 33);
  }

  /** `1 << trailing_ones` leaves the word only for the all-ones word. */
  lemma OnlyMaxOverflows(x: nat)
    requires x < MAX
    ensures TrailingOnes(x) < 32
  {
    TrailingOnesAreZerosOfSuccessor(x);
    TrailingZerosIsLargestAlignment(x + 1, 32);
    if Aligned(x + 1, 32) { AlignedAtLeast(x + 1, 32); WordSize(); }
  }

  /** One more block on the covered part. */
  lemma CoverOneMore(cs: seq<Cidr>, c: Cidr, a: nat)
    requires AllEntries(cs) && IsEntry(c)
    ensures AllEntries(cs + [c])
    ensures Hits(cs + [c], a) == Hits(cs, a) + if c.Contains(a) then 1 else 0
  {
    HitsConcat(cs, [c], a);
    assert [c][1..] == [];
  }

  /** What is left to cover after taking blocks off both ends of a range. */
  ghost predicate Progress(cs: seq<Cidr>, left: nat, lo: nat, hi: int, right: nat)
  {
    && AllEntries(cs)
    && left <= lo <= hi + 1 <= right + 1
    && (forall a: nat :: Hits(cs, a) == if left <= a < lo || hi < a <= right then 1 else 0)
    && (forall c: Cidr {:trigger Within(c, left, right)} :: c.IsBlock() && Within(c, left, right) ==> Absorbed(c, cs) || Within(c, lo, hi))
  }

  lemma ProgressStep(cs: seq<Cidr>, b: Cidr, left: nat, lo: nat, hi: int, right: nat, lo': nat, hi': int)
    requires Progress(cs, left, lo, hi, right) && IsEntry(b)
    requires (lo' == lo && hi' + 1 == b.ip && b.Last() == hi) || (b.ip == lo && lo' == b.Last() + 1 && hi' == hi)
    requires lo <= lo' <= hi' + 1 <= hi + 1
    requires forall c: Cidr {:trigger Within(c, lo, hi)} :: c.IsBlock() && Within(c, lo, hi) ==> Within(c, b.ip, b.Last()) || Within(c, lo', hi')
    ensures Progress(cs + [b], left, lo', hi', right)
  {
    forall a: nat
      ensures Hits(cs + [b], a) == if left <= a < lo' || hi' < a <= right then 1 else 0
    {
      CoverOneMore(cs, b, a);
    }
    assert b in cs + [b];
    forall c: Cidr | c.IsBlock() && Within(c, left, right)
      ensures Absorbed(c, cs + [b]) || Within(c, lo', hi')
    {
      if Absorbed(c, cs) {
        var d :| d in cs && Within(c, d.ip, d.Last());
        assert d in cs + [b];
      }
    }
  }

  /** The block the first loop takes off: the largest one ending at `hi`. */
  lemma RightBlock(hi: nat, s: nat)
    requires hi < MAX && s == TrailingOnes(hi)
    ensures s < 32 && Pow2(s) - 1 <= MAX
    ensures var ip := And(hi, Not(Pow2(s) - 1));
            && ip + Pow2(s) == hi + 1 && Aligned(ip, s) && IsEntry(Cidr(ip, 32 - s))
            && New(ip, 32 - s) == Cidr(ip, 32 - s)
            && (ip > 0 ==> s <= 30 && TrailingOnes(ip - 1) > s)
  {
    hide Aligned, TrailingZeros, TrailingOnes, And;
    OnlyMaxOverflows(hi);
    MaskClearsLowBits(hi, s);
    var ip := And(hi, Not(Pow2(s) - 1));
    TrailingOnesAreZerosOfSuccessor(hi);
    LowestBitCarries(hi + 1);
    AlignedWeaken(hi + 1 - Pow2(s), s, s + 1);
    FloorUnique(hi, ip, hi + 1 - Pow2(s), s);
    FloorUnique(ip, New(ip, 32 - s).ip, ip, s);
    if ip > 0 {
      InnerBlockSmall(ip, s);
      TrailingOnesAreZerosOfSuccessor(ip - 1);
      TrailingZerosIsLargestAlignment(ip, s + 1);
    }
  }

  lemma RightProgress(cs: seq<Cidr>, left: nat, hi: nat, right: nat, ip: nat, s: nat)
    requires Progress(cs, left, left, hi, right)
    requires s == TrailingOnes(hi) && s < 32 && IsEntry(Cidr(ip, 32 - s)) && Aligned(ip, s) && ip + Pow2(s) == hi + 1
    requires left <= ip
    ensures Progress(cs + [Cidr(ip, 32 - s)], left, left, ip - 1, right)
  {
    forall c: Cidr | c.IsBlock() && Within(c, left, hi)
      ensures Within(c, ip, hi) || Within(c, left, ip - 1)
    {
      RightGreedy(c, ip, hi, s);
    }
    ProgressStep(cs, Cidr(ip, 32 - s), left, left, hi, right, left, ip - 1);
  }

  /** The block the second loop takes off: the largest one starting at `lo`. It fits below `end`
      because both are multiples of its size. */
  lemma LeftBlock(lo: nat, end: nat, s: nat)
    requires 0 < lo < end <= MAX && s == TrailingZeros(lo)
    requires end < lo + Pow2(TrailingZeros(end))
    ensures s <= 30 && IsEntry(Cidr(lo, 32 - s)) && New(lo, 32 - s) == Cidr(lo, 32 - s)
    ensures lo + Pow2(s) <= end && TrailingZeros(lo + Pow2(s)) > s
  {
    hide Aligned, Pow2, TrailingZeros, And;
    var top := TrailingZeros(end);
    TrailingZerosIsLargestAlignment(lo, s);
    TrailingZerosIsLargestAlignment(end, top);
    LowestBitCarries(end);
    AlignedWeaken(end - Pow2(top), top, top + 1);
    if top < s {
      AlignedWeaken(lo, top, s);
      AlignedApart(end - Pow2(top), lo, top);
    }
    AlignedWeaken(end, s, top);
    AlignedApart(lo, end, s);
    InnerBlockSmall(lo, s);
    FloorUnique(lo, New(lo, 32 - s).ip, lo, s);
    LowestBitCarries(lo);
    TrailingZerosIsLargestAlignment(lo + Pow2(s), s + 1);
  }

  lemma LeftProgress(cs: seq<Cidr>, left: nat, lo: nat, hi: nat, right: nat, s: nat)
    requires Progress(cs, left, lo, hi, right)
    requires lo > 0 && s == TrailingZeros(lo) && s < 32 && IsEntry(Cidr(lo, 32 - s)) && lo + Pow2(s) <= hi + 1
    ensures Progress(cs + [Cidr(lo, 32 - s)], left, lo + Pow2(s), hi, right)
  {
    hide Aligned, Pow2, TrailingZeros;
    forall c: Cidr | c.IsBlock() && Within(c, lo, hi)
      ensures Within(c, lo, lo + Pow2(s) - 1) || Within(c, lo + Pow2(s), hi)
    {
      LeftGreedy(c, lo);
    }
    ProgressStep(cs, Cidr(lo, 32 - s), left, lo, hi, right, lo + Pow2(s), hi);
  }

  /** What a caller gets for a range inside the address space. */
  ghost predicate Partition(cs: seq<Cidr>, left: int, right: int) {
    AllEntries(cs) && CoversExactly(cs, left, right) && Maximal(cs, left, right)
  }

  lemma SortKeepsPartition(cs: seq<Cidr>, left: int, right: int)
    requires Partition(cs, left, right)
    ensures Partition(Sort(cs), left, right) && Sorted(Sort(cs)) && |Sort(cs)| == |cs|
  {
    var sorted := Sort(cs);
    SortCorrect(cs);
    forall a: nat ensures Hits(sorted, a) == Hits(cs, a) { SortHits(cs, a); }
    forall c: Cidr | c.IsBlock() && Within(c, left, right) ensures Absorbed(c, sorted) {
      var d :| d in cs && Within(c, d.ip, d.Last());
      assert d in sorted;
    }
  }

  /** The first loop of `range_to_cidr`: take the largest block off the right end while it fits.
      `None` stands for arithmetic that leaves the word, which panics if overflow is checked:
      `1 << 32` when the range ends at the last address, `ip - 1` at address 0 when it starts there.
      What is left over is smaller than the next block at its right end. */
  method TakeFromRight(left: nat, right: nat) returns (r: Option<seq<Cidr>>, hi: nat)
    requires left <= right <= MAX
    ensures r.Some? <==> 0 < left && right < MAX
    ensures r.Some? ==> Progress(r.value, left, left, hi, right) && |r.value| <= 31
    ensures r.Some? ==> hi + 1 < left + Pow2(TrailingZeros(hi + 1))
  {
    hide Aligned, Pow2, TrailingZeros, TrailingOnes, And;
    var cidrs: seq<Cidr> := [];
    hi := right;
    while true
      invariant Progress(cidrs, left, left, hi, right)
      invariant |cidrs| <= 31 && |cidrs| <= TrailingOnes(hi)
      invariant right == MAX ==> hi == MAX
      decreases hi
    {
      if hi == MAX { OneBitsOfMax(); }
      var shift := TrailingOnes(hi);
      if shift == 32 {
        if hi < MAX { OnlyMaxOverflows(hi); }
        return None, hi;
      }
      RightBlock(hi, shift);
      var prefix := 32 - shift;
      var ip := And(hi, Not(Pow2(shift) - 1));
      if left <= ip {
        RightProgress(cidrs, left, hi, right, ip, shift);
        var block := New(ip, prefix);
        assert block == Cidr(ip, prefix);
        cidrs := cidrs + [block];
        if ip == 0 {
          return None, hi;
        }
        hi := ip - 1;
      } else {
        break;
      }
    }
    TrailingOnesAreZerosOfSuccessor(hi);
    r := Some(cidrs);
  }

  /** The second loop: take the largest block off the left end until nothing is left. It lands
      exactly on `hi + 1`. */
  method TakeFromLeft(cs: seq<Cidr>, left: nat, hi: nat, right: nat) returns (cidrs: seq<Cidr>)
    requires 0 < left && right < MAX && Progress(cs, left, left, hi, right)
    requires hi + 1 < left + Pow2(TrailingZeros(hi + 1))
    ensures Progress(cidrs, left, hi + 1, hi, right) && |cidrs| <= |cs| + 31
  {
    hide Aligned, Pow2, TrailingZeros, TrailingOnes, And;
    cidrs := cs;
    var lo := left;
    while lo <= hi
      invariant Progress(cidrs, left, lo, hi, right)
      invariant |cidrs| <= |cs| + 31 && |cidrs| <= |cs| + TrailingZeros(lo)
    {
      var shift := TrailingZeros(lo);
      LeftBlock(lo, hi + 1, shift);
      LeftProgress(cidrs, left, lo, hi, right, shift);
      var prefix := 32 - shift;
      var block := New(lo, prefix);
      assert block == Cidr(lo, prefix);
      cidrs := cidrs + [block];
      lo := lo + Pow2(shift);
    }
  }

  /** `range_to_cidr`: defined exactly for single addresses and for ranges that touch neither end
      of the address space; then the blocks partition the range, no block of theirs can be
      enlarged within it, and there are at most 62 of them. */
  method RangeToCidr(left: nat, right: nat) returns (r: Option<seq<Cidr>>)
    requires left <= right <= MAX
    ensures r.Some? <==> left == right || (0 < left && right < MAX)
    ensures r.Some? ==> Partition(r.value, left, right) && Sorted(r.value) && |r.value| <= 62
  {
    if left == right {
      var cidrs := [New(left, 32)];
      assert cidrs[1..] == [];
      assert cidrs[0].ip == left;
      return Some(cidrs);
    }
    var fromRight, hi := TakeFromRight(left, right);
    if fromRight.None? {
      return None;
    }
    var cidrs := TakeFromLeft(fromRight.value, left, hi, right);
    SortKeepsPartition(cidrs, left, right);
    return Some(Sort(cidrs));
  }

  /** No list of CIDR blocks that covers exactly the range is shorter. */
  lemma RangeIsMinimal(cs: seq<Cidr>, left: nat, right: nat, other: seq<Cidr>)
    requires Partition(cs, left, right) && AllBlocks(other)
    requires forall a: nat :: Hits(other, a) > 0 <==> left <= a <= right
    ensures |cs| <= |other|
  {
    forall c | c in other ensures Absorbed(c, cs) {
      HitsPositive(other, c.ip);
      HitsPositive(other, c.Last());
      assert c.Contains(c.ip) && c.Contains(c.Last());
      assert Within(c, left, right);
    }
    forall b | b in cs ensures Hits(other, b.ip) > 0 {
      HitsPositive(cs, b.ip);
      assert b.Contains(b.ip);
    }
    FewestBlocks(cs, other);
  }
}
