/** Choice of the buffer-table order of a memory registration (src/driver/linux_char/efch_memreg.c). */
module Memreg {
  import opened Arith

  /** The place of x in its block of 2^c. */
  function Place(x: nat, c: nat): (r: nat)
    ensures r <= x && r < Pow2(c)
  {
    ModAtMost(x, Pow2(c));
    x % Pow2(c)
  }

  lemma ModAtMost(x: nat, d: nat)
    requires d > 0
    ensures x % d <= x
  {
    DivMod(x, d);
    assert d * (x / d) >= 0;
  }

  predicate Aligned(x: nat, c: nat) {
    Place(x, c) == 0
  }

  /** Number of trailing zero bits (__ffs). */
  function Ffs(x: nat): nat
    requires x > 0
  {
    if x % 2 == 1 then 0 else 1 + Ffs(x / 2)
  }

  /** Doubling number and divisor. */
  lemma EvenMod(y: nat, d: nat)
    requires d > 0
    ensures 2 * y % (2 * d) == 2 * (y % d)
  {
    var q, r := y / d, y % d;
    DivMod(y, d);
    assert 2 * y == q * (2 * d) + 2 * r;
    assert q * (2 * d) == 2 * d * q;
    ModUnique(2 * y, 2 * d, q, 2 * r);
  }

  /** A number is aligned to just the orders up to its number of trailing zeros. */
  lemma {:induction false} FfsAligned(x: nat, c: nat)
    requires x > 0
    ensures c <= Ffs(x) <==> Aligned(x, c)
    decreases c
  {
    if c > 0 {
      if x % 2 == 1 {
        if Aligned(x, c) {
          DivMod(x, Pow2(c));
          assert x == 2 * (x / Pow2(c) * Pow2(c - 1));
        }
      } else {
        FfsAligned(x / 2, c - 1);
        EvenMod(x / 2, Pow2(c - 1));
      }
    }
  }

  lemma {:induction false} PowDivides(c: nat, d: nat)
    requires d <= c
    ensures Pow2(c) == Pow2(c - d) * Pow2(d)
    decreases c - d
  {
    if d < c {
      PowDivides(c - 1, d);
    }
  }

  /** The place in a smaller block from the place in a larger one. */
  lemma ModMod(x: nat, c: nat, d: nat)
    requires d <= c
    ensures Place(Place(x, c), d) == Place(x, d)
  {
    PowDivides(c, d);
    var m, p := Pow2(d), Pow2(c - d);
    ModProduct(x, m, p);
    assert Pow2(c) == m * p;
    ModUnique(x % Pow2(c), m, x / m % p, x % m);
  }

  lemma AlignedDown(x: nat, c: nat, d: nat)
    requires d <= c && Aligned(x, c)
    ensures Aligned(x, d)
  {
    ModMod(x, c, d);
  }

  lemma AlignedSum(x: nat, y: nat, d: nat)
    requires Aligned(x, d)
    ensures Place(x + y, d) == Place(y, d)
  {
    var p := Pow2(d);
    DivMod(x, p);
    DivMod(y, p);
    assert x + y == p * (x / p + y / p) + y % p by {
      Distribute(p, x / p, -(y / p));
    }
    ModUnique(x + y, p, x / p + y / p, y % p);
  }

  lemma PowAligned(c: nat, d: nat)
    requires d <= c
    ensures Aligned(Pow2(c), d)
  {
    hide Pow2;
    PowDivides(c, d);
    Multiple(Pow2(d), Pow2(c - d));
    assert Pow2(d) * Pow2(c - d) == Pow2(c);
  }

  lemma PlaceSmall(u: nat, c: nat)
    requires u < Pow2(c)
    ensures Place(u, c) == u
  {
    hide Pow2;
    ModUnique(u, Pow2(c), 0, u);
  }

  lemma BlockArith(p: nat, m: nat, k: nat)
    requires m > 0 && k > 0
    ensures m * k > 0 && p % m <= p % (m * k) && (p - p % m) % (m * k) == p % (m * k) - p % m
  {
    ModProduct(p, m, k);
    var n, j := m * k, p / m % k;
    var q := p / n;
    assert m * j >= 0;
    assert p == n * q + p % n;
    ModUnique(p - p % m, n, q, m * j);
  }

  /** The start of a smaller block lies in the larger block. */
  lemma SameBlock(p: nat, c: nat, d: nat)
    requires d <= c
    ensures Place(p, d) <= Place(p, c) && Place(p - Place(p, d), c) == Place(p, c) - Place(p, d)
  {
    hide Pow2;
    PowDivides(c, d);
    BlockArith(p, Pow2(d), Pow2(c - d));
    assert Pow2(d) * Pow2(c - d) == Pow2(c);
  }

  // ----- Pinned pages -----

  const UINT_MAX := 0xffff_ffff

  /** A pinned page: its frame number, and the order of the compound page it belongs to. A compound page of order n
      has 2^n frames and starts at a multiple of that. */
  datatype Page = Page(frame: nat, order: nat)

  /** The pages of each compound page follow one another. */
  ghost predicate InOrder(pages: seq<Page>) {
    && (forall i | 0 <= i < |pages| :: pages[i].frame > 0 && pages[i].order < UINT_MAX)
    && forall i | 0 <= i < |pages| - 1 && !Aligned(pages[i].frame + 1, pages[i].order) ::
         pages[i + 1] == Page(pages[i].frame + 1, pages[i].order)
  }

  /** The order a page allows: that of its compound page, limited by where the page lies. */
  function PageOrder(p: Page): nat
    requires p.frame > 0
  {
    if p.order < Ffs(p.frame) then p.order else Ffs(p.frame)
  }

  /** A frame inside the part of a compound page from an aligned frame on is not where a compound page starts. */
  lemma NotAStart(p: Page, t: nat, u: nat)
    requires p.frame > 0 && t <= PageOrder(p) && 0 < u < Pow2(t)
    ensures !Aligned(p.frame + u, p.order)
  {
    hide Place;
    FfsAligned(p.frame, t);
    AlignedSum(p.frame, u, t);
    PlaceSmall(u, t);
    if Aligned(p.frame + u, p.order) {
      AlignedDown(p.frame + u, p.order, t);
    }
  }

  /** Pages from an aligned one on are consecutive, as far as its order goes. */
  lemma {:induction false} BlockConsecutive(pages: seq<Page>, i: nat, t: nat, u: nat)
    requires InOrder(pages) && i < |pages| && t <= PageOrder(pages[i]) && u < Pow2(t) && i + u < |pages|
    ensures pages[i + u] == Page(pages[i].frame + u, pages[i].order)
    decreases u
  {
    hide Place, Aligned, Pow2, PageOrder;
    if u > 0 {
      BlockConsecutive(pages, i, t, u - 1);
      NotAStart(pages[i], t, u);
    }
  }

  /** Below position hi, pages in the same block of 2^c are consecutive. */
  ghost predicate Consecutive(pages: seq<Page>, c: nat, hi: nat) {
    forall p: nat | p < hi && p < |pages| :: pages[p].frame == pages[p - Place(p, c)].frame + Place(p, c)
  }

  /** Below position hi, every block of 2^c starts with a page that allows it: one compound page holds all of it, and the
      address of the page is a multiple of its size. */
  ghost predicate Allows(pages: seq<Page>, c: nat, hi: nat)
    requires InOrder(pages)
  {
    forall i: nat | i < hi && i < |pages| && Aligned(i, c) :: c <= PageOrder(pages[i])
  }

  /** What a page allows, the pages of its block allow to their own blocks. */
  lemma WithinBlock(pages: seq<Page>, i: nat, t: nat, u: nat, d: nat)
    requires InOrder(pages) && i < |pages| && t <= PageOrder(pages[i]) && u < Pow2(t) && i + u < |pages|
    requires d <= t && Aligned(u, d)
    ensures d <= PageOrder(pages[i + u])
  {
    hide Place, Pow2;
    BlockConsecutive(pages, i, t, u);
    FfsAligned(pages[i].frame, t);
    AlignedDown(pages[i].frame, t, d);
    AlignedSum(pages[i].frame, u, d);
    FfsAligned(pages[i].frame + u, d);
  }

  /** Smaller blocks lie in larger ones. */
  lemma AllowsDown(pages: seq<Page>, c: nat, d: nat, hi: nat)
    requires InOrder(pages) && d <= c && Allows(pages, c, hi)
    ensures Allows(pages, d, hi)
  {
    hide Place, Pow2, PageOrder;
    forall i: nat | i < hi && i < |pages| && Aligned(i, d) ensures d <= PageOrder(pages[i]) {
      SameBlock(i, c, c);
      ModMod(i, c, d);
      WithinBlock(pages, i - Place(i, c), c, Place(i, c), d);
    }
  }

  /** A block found at position i adds to those below it. */
  lemma AllowsGrows(pages: seq<Page>, c: nat, i: nat, t: nat)
    requires InOrder(pages) && i < |pages| && (i > 0 ==> Allows(pages, c, i) && Aligned(i, c))
    requires c <= t <= PageOrder(pages[i])
    ensures Allows(pages, c, i + Pow2(t)) && Aligned(i + Pow2(t), c)
  {
    hide Place, Aligned, Pow2, PageOrder;
    ZeroAligned(c);
    forall k: nat | i <= k < i + Pow2(t) && k < |pages| && Aligned(k, c) ensures c <= PageOrder(pages[k]) {
      AlignedWithin(i, k - i, c);
      WithinBlock(pages, i, t, k - i, c);
    }
    AlignedNext(i, t, c);
  }

  lemma AlignedWithin(i: nat, u: nat, c: nat)
    requires Aligned(i, c)
    ensures Aligned(i + u, c) <==> Aligned(u, c)
  {
    AlignedSum(i, u, c);
  }

  lemma AlignedNext(i: nat, t: nat, c: nat)
    requires Aligned(i, c) && c <= t
    ensures Aligned(i + Pow2(t), c)
  {
    hide Place, Pow2;
    AlignedSum(i, Pow2(t), c);
    PowAligned(t, c);
  }

  lemma ZeroAligned(c: nat)
    ensures Aligned(0, c)
  {
  }

  /** Blocks that start with pages that allow them are consecutive. */
  lemma AllowsConsecutive(pages: seq<Page>, c: nat)
    requires InOrder(pages) && Allows(pages, c, |pages|)
    ensures Consecutive(pages, c, |pages|)
  {
    hide Place, Pow2, PageOrder, InOrder;
    forall p: nat | p < |pages| ensures pages[p].frame == pages[p - Place(p, c)].frame + Place(p, c) {
      SameBlock(p, c, c);
      BlockConsecutive(pages, p - Place(p, c), c, Place(p, c));
    }
  }

  /** A page that allows less than the block it starts rules that order out, and every larger one. */
  lemma RulesOut(pages: seq<Page>, order: nat, w: nat, c: nat)
    requires InOrder(pages) && w < |pages| && PageOrder(pages[w]) == order && Aligned(w, order + 1) && order < c
    ensures !Allows(pages, c, |pages|)
  {
    hide InOrder, PageOrder, Aligned;
    if Allows(pages, c, |pages|) {
      AllowsDown(pages, c, order + 1, |pages|);
    }
  }

  // ----- The registration -----

  /** The least order over the compound pages, skipping their tail pages and stopping at zero: it is the largest order
      that all blocks of the pages allow. */
  method CompoundOrder(pages: seq<Page>) returns (order: nat)
    requires InOrder(pages) && |pages| > 0
    ensures order < UINT_MAX && Allows(pages, order, |pages|)
    ensures forall c: nat | c > order :: !Allows(pages, c, |pages|)
  {
    hide Place, Aligned, Pow2, Allows;
    order := UINT_MAX;
    var i := 0;
    ghost var w := 0;
    while order > 0 && i < |pages|
      invariant i == 0 <==> order == UINT_MAX
      invariant order <= UINT_MAX
      invariant i > 0 ==> Allows(pages, order, i) && Aligned(i, order)
      invariant i > 0 ==> w < |pages| && PageOrder(pages[w]) == order && Aligned(w, order + 1)
      decreases |pages| - i
    {
      var thisOrder := PageOrder(pages[i]);
      if thisOrder < order {
        if i > 0 {
          AllowsDown(pages, order, thisOrder, i);
          AlignedDown(i, order, thisOrder);
          AlignedDown(i, order, thisOrder + 1);
        } else {
          ZeroAligned(thisOrder + 1);
        }
        w := i;
      }
      order := Min(order, thisOrder);
      AllowsGrows(pages, order, i, thisOrder);
      i := i + Pow2(thisOrder);
    }
    AllowsUpTo(pages, order, i);
    forall c: nat | c > order ensures !Allows(pages, c, |pages|) {
      RulesOut(pages, order, w, c);
    }
  }

  lemma AllowsUpTo(pages: seq<Page>, c: nat, hi: nat)
    requires InOrder(pages) && (c == 0 || (Allows(pages, c, hi) && hi >= |pages|))
    ensures Allows(pages, c, |pages|)
  {
  }

  const NIC_PAGE := 4096

  function AlignForward(bytes: nat): nat {
    (bytes + NIC_PAGE - 1) / NIC_PAGE * NIC_PAGE
  }

  /** The pages a range of addresses touches. */
  function PageCount(pageSize: nat, ptr: nat, end: nat): int
    requires pageSize > 0
  {
    (end + pageSize - 1) / pageSize - ptr / pageSize
  }

  /** Blocks of 2^order pages at these frames are the first pages of the registration, and each is consecutive. */
  ghost predicate Blocks(pages: seq<Page>, order: nat, addrs: seq<nat>) {
    && |addrs| * Pow2(order) <= |pages|
    && forall j: nat, t: nat | j < |addrs| && t < Pow2(order) ::
         InRange(j, t, order, |pages|) && pages[j * Pow2(order) + t].frame == addrs[j] + t
  }

  ghost predicate InRange(j: nat, t: nat, order: nat, n: nat) {
    j * Pow2(order) + t < n
  }

  /** The block of 2^c that x is in. */
  function BlockOf(x: nat, c: nat): nat {
    QuotientNatural(x, Pow2(c));
    x / Pow2(c)
  }

  lemma QuotientNatural(x: nat, d: nat)
    requires d > 0
    ensures x / d >= 0
  {
  }

  /** Every pinned page is in one of the blocks, at its place. */
  ghost predicate EveryPage(pages: seq<Page>, order: nat, addrs: seq<nat>) {
    forall p: nat | p < |pages| ::
      BlockOf(p, order) < |addrs| && pages[p].frame == addrs[BlockOf(p, order)] + Place(p, order)
  }

  /** That is so exactly if the blocks have as many pages as were pinned. */
  lemma EveryPageExactly(pages: seq<Page>, order: nat, addrs: seq<nat>)
    requires Blocks(pages, order, addrs) && |pages| > 0
    ensures EveryPage(pages, order, addrs) <==> |addrs| * Pow2(order) == |pages|
  {
    hide Pow2;
    var b, n := Pow2(order), |addrs|;
    if n * b == |pages| {
      forall p: nat | p < |pages|
        ensures BlockOf(p, order) < n && pages[p].frame == addrs[BlockOf(p, order)] + Place(p, order)
      {
        PageIn(p, b, n);
        assert InRange(BlockOf(p, order), Place(p, order), order, |pages|);
      }
    } else if EveryPage(pages, order, addrs) {
      var last: nat := |pages| - 1;
      DivMod(last, b);
      assert BlockOf(last, order) < n;
      LessThanMultiple(b, last / b, n, last % b);
    }
  }

  lemma PageIn(p: nat, b: nat, n: nat)
    requires b > 0 && p < n * b
    ensures 0 <= p / b < n && p / b * b + p % b == p
  {
    DivMod(p, b);
    if p / b >= n {
      Scaled(n, p / b, b);
    }
  }

  lemma Scaled(m: int, n: int, b: nat)
    requires m <= n
    ensures m * b <= n * b
  {
  }

  lemma BlockInRange(j: nat, t: nat, b: nat, count: nat)
    requires j < count && t < b
    ensures j * b + t < count * b && (j * b + t) % b == t
  {
    LessThanMultiple(b, j, count, t);
    ModUnique(b * j + t, b, j, t);
  }

  /** The address is that of the first page of block j. */
  ghost predicate Heads(pages: seq<Page>, addr: nat, j: nat, b: nat) {
    j * b < |pages| && addr == pages[j * b].frame
  }

  /** The addresses programmed: the first page of each block. */
  method BlockAddresses(pages: seq<Page>, order: nat, count: nat) returns (addrs: seq<nat>)
    requires Consecutive(pages, order, |pages|) && count * Pow2(order) <= |pages|
    ensures |addrs| == count && Blocks(pages, order, addrs)
  {
    hide Pow2, Place, Consecutive, Blocks;
    addrs := [];
    var b, cur := Pow2(order), 0;
    for i := 0 to count
      invariant |addrs| == i && cur == i * b
      invariant forall j | 0 <= j < i :: Heads(pages, addrs[j], j, b)
    {
      BlockInRange(i, 0, b, count);
      addrs := addrs + [pages[cur].frame];
      cur := cur + b;
    }
    BlocksOf(pages, order, addrs);
  }

  lemma BlocksOf(pages: seq<Page>, order: nat, addrs: seq<nat>)
    requires Consecutive(pages, order, |pages|) && |addrs| * Pow2(order) <= |pages|
    requires forall j | 0 <= j < |addrs| :: Heads(pages, addrs[j], j, Pow2(order))
    ensures Blocks(pages, order, addrs)
  {
    hide Pow2;
    forall j: nat, t: nat | j < |addrs| && t < Pow2(order)
      ensures InRange(j, t, order, |pages|) && pages[j * Pow2(order) + t].frame == addrs[j] + t
    {
      var b := Pow2(order);
      BlockInRange(j, t, b, |addrs|);
      var p := j * b + t;
      assert Heads(pages, addrs[j], j, b);
      assert Place(p, order) == t;
    }
  }

  /** Blocks of b pages between two page numbers that are multiples of b: they have as many bytes as the range of
      addresses exactly when its ends lie at the same place of their pages. */
  lemma Tiles(ps: nat, b: nat, ptr: nat, end: nat)
    requires ps > 0 && b > 0 && ptr <= end && ptr / ps % b == 0 && end / ps % b == 0
    ensures ps * b > 0 && ((end - ptr) / (ps * b) * b * ps == end - ptr <==> ptr % ps == end % ps)
  {
    var n := ps * b;
    var k, d := end / ps / b - ptr / ps / b, end % ps - ptr % ps;
    Whole(ps, b, ptr);
    Whole(ps, b, end);
    Distribute(n, end / ps / b, ptr / ps / b);
    assert end - ptr == n * k + d;
    var c := (end - ptr) / n;
    Associate(c, b, ps);
    if d == 0 {
      Multiple(n, k);
    } else if n * c == end - ptr {
      Distribute(n, c, k);
      assert d == n * (c - k);
      Associate(c - k, b, ps);
      NoSmallMultiple(ps, (c - k) * b, d);
    }
  }

  lemma Whole(ps: nat, b: nat, x: nat)
    requires ps > 0 && b > 0 && x / ps % b == 0
    ensures x == ps * b * (x / ps / b) + x % ps
  {
    var q := x / ps;
    assert x == ps * q + x % ps && q == b * (q / b);
  }

  lemma Associate(c: int, b: int, ps: int)
    ensures c * b * ps == ps * b * c == ps * (c * b)
  {
  }

  lemma NoSmallMultiple(m: int, k: int, d: int)
    requires m > 0 && -m < d < m && d == m * k
    ensures d == 0
  {
    var j := -k;
    assert m * k == -(m * j);
    if k >= 1 {
      AtLeastOnce(m, k);
    } else if j >= 1 {
      AtLeastOnce(m, j);
    }
  }

  /** How many pages the blocks hold, against the pages the region touches: as many exactly if both ends
      of the region are ends of pages; and only then do the blocks, which start with the region's first
      page, reach its end. */
  lemma CoversExactly(ps: nat, b: nat, ptr: nat, end: nat)
    requires ps > 0 && b > 0 && ptr < end && ptr / ps % b == 0 && end / ps % b == 0
    ensures ps * b > 0
    ensures (end - ptr) / (ps * b) * b == PageCount(ps, ptr, end) <==> ptr % ps == 0 && end % ps == 0
    ensures ps * (ptr / ps) + ps * ((end - ptr) / (ps * b) * b) >= end <==> ptr % ps == 0 && end % ps == 0
  {
    var n, k, d := ps * b, end / ps / b - ptr / ps / b, end % ps - ptr % ps;
    AtLeastOnce(ps, b);
    Whole(ps, b, ptr);
    Whole(ps, b, end);
    Distribute(n, end / ps / b, ptr / ps / b);
    assert end - ptr == n * k + d;
    PagesBetween(ps, b, ptr, end);
    var c := (end - ptr) / n;
    if d >= 0 {
      ModUnique(end - ptr, n, k, d);
    } else {
      Distribute(n, k, 1);
      ModUnique(end - ptr, n, k - 1, d + n);
    }
    Associate(c, b, ps);
    assert c * b == if d >= 0 then k * b else k * b - b;
    assert ps * (c * b) == n * c;
    DivMod(ptr, ps);
  }

  lemma PagesBetween(ps: nat, b: nat, ptr: nat, end: nat)
    requires ps > 0 && b > 0 && ptr / ps % b == 0 && end / ps % b == 0
    ensures PageCount(ps, ptr, end) == (end / ps / b - ptr / ps / b) * b + if end % ps == 0 then 0 else 1
  {
    var x, y := end / ps, ptr / ps;
    DivMod(x, b);
    DivMod(y, b);
    Distribute(b, x / b, y / b);
    DivMod(end, ps);
    if end % ps == 0 {
      ModUnique(end + ps - 1, ps, x, ps - 1);
    } else {
      Distribute(ps, x, -1);
      ModUnique(end + ps - 1, ps, x + 1, end % ps - 1);
    }
  }

  /** The blocks do not go past the pinned pages. */
  lemma Fits(ps: nat, b: nat, ptr: nat, end: nat)
    requires ps > 0 && b > 0 && ptr < end
    ensures ps * b > 0 && 0 <= (end - ptr) / (ps * b) * b <= PageCount(ps, ptr, end) && PageCount(ps, ptr, end) > 0
  {
    var n, last, first := ps * b, (end + ps - 1) / ps, ptr / ps;
    AtLeastOnce(ps, b);
    var c := (end - ptr) / n;
    DivMod(end - ptr, n);
    Associate(c, b, ps);
    Spans(ps, ptr, end);
    assert ps * (c * b) == n * c <= end - ptr <= ps * (last - first);
    Cancel(ps, c * b, last - first);
    assert c * b >= 0;
  }

  lemma Spans(ps: nat, ptr: nat, end: nat)
    requires ps > 0 && ptr < end
    ensures end - ptr <= ps * ((end + ps - 1) / ps - ptr / ps) && (end + ps - 1) / ps > ptr / ps
  {
    var last, first := (end + ps - 1) / ps, ptr / ps;
    DivMod(end + ps - 1, ps);
    DivMod(ptr, ps);
    Distribute(ps, last, first);
    if last <= first {
      Cancel(ps, 1, last - first);
    }
  }

  lemma Cancel(m: int, a: int, b: int)
    requires m > 0 && m * a <= m * b
    ensures a <= b
  {
    if a > b {
      AtLeastOnce(m, a - b);
      Distribute(m, a, b);
    }
  }

  /** Blocks of 2^c pages are possible: the pages allow them, and the region starts and ends between them. */
  ghost predicate Suits(pages: seq<Page>, pageSize: nat, ptr: nat, end: nat, c: nat)
    requires InOrder(pages) && pageSize > 0
  {
    Allows(pages, c, |pages|) && Aligned(ptr / pageSize, c) && Aligned(end / pageSize, c)
  }

  lemma SuitsBest(pages: seq<Page>, pageSize: nat, ptr: nat, end: nat, compound: nat)
    requires InOrder(pages) && pageSize > 0 && ptr / pageSize > 0 && end / pageSize > 0
    requires Allows(pages, compound, |pages|) && forall c: nat | c > compound :: !Allows(pages, c, |pages|)
    ensures var order := Min(Min(compound, Ffs(ptr / pageSize)), Ffs(end / pageSize));
            Suits(pages, pageSize, ptr, end, order) && forall c: nat | c > order :: !Suits(pages, pageSize, ptr, end, c)
  {
    hide Allows, Aligned, Ffs, InOrder;
    var order := Min(Min(compound, Ffs(ptr / pageSize)), Ffs(end / pageSize));
    AllowsDown(pages, compound, order, |pages|);
    forall c: nat
      ensures c <= Ffs(ptr / pageSize) <==> Aligned(ptr / pageSize, c)
      ensures c <= Ffs(end / pageSize) <==> Aligned(end / pageSize, c)
    {
      FfsAligned(ptr / pageSize, c);
      FfsAligned(end / pageSize, c);
    }
  }

  /** The order of the blocks: the largest that suits the pages and both ends of the region. */
  method BlockOrder(pages: seq<Page>, pageSize: nat, ptr: nat, end: nat) returns (order: nat)
    requires InOrder(pages) && |pages| > 0 && pageSize > 0 && ptr / pageSize > 0 && end / pageSize > 0
    ensures Suits(pages, pageSize, ptr, end, order) && forall c: nat | c > order :: !Suits(pages, pageSize, ptr, end, c)
    ensures Consecutive(pages, order, |pages|)
    ensures ptr / pageSize % Pow2(order) == 0 && end / pageSize % Pow2(order) == 0
  {
    hide Pow2, Allows, Consecutive, InOrder;
    var compound := CompoundOrder(pages);
    order := Min(compound, Ffs(ptr / pageSize));
    order := Min(order, Ffs(end / pageSize));
    SuitsBest(pages, pageSize, ptr, end, compound);
    AllowsConsecutive(pages, order);
  }

  /** The part of memreg_rm_alloc that lays out a registration. The pages are those pinned for it. */
  method Layout(pageSize: nat, ptr: nat, bytes: nat, pages: seq<Page>)
      returns (failed: bool, order: nat, addrs: seq<nat>)
    requires pageSize > 0 && ptr / pageSize > 0 && InOrder(pages)
    requires |pages| == PageCount(pageSize, ptr, ptr + AlignForward(bytes))
    ensures failed <==> bytes == 0 || ptr % NIC_PAGE != 0
    ensures !failed ==> Blocks(pages, order, addrs)
    ensures var end := ptr + AlignForward(bytes);
            !failed ==> Suits(pages, pageSize, ptr, end, order) &&
                        forall c: nat | c > order :: !Suits(pages, pageSize, ptr, end, c)
    ensures var end := ptr + AlignForward(bytes);
            !failed ==> (|addrs| * Pow2(order) * pageSize == end - ptr <==> ptr % pageSize == end % pageSize)
    ensures var end := ptr + AlignForward(bytes);
            !failed ==> (EveryPage(pages, order, addrs) <==> ptr % pageSize == 0 && end % pageSize == 0)
    ensures var end := ptr + AlignForward(bytes);
            !failed ==> (pageSize * (ptr / pageSize) + pageSize * (|addrs| * Pow2(order)) >= end <==>
                         ptr % pageSize == 0 && end % pageSize == 0)
    ensures !failed && pageSize == NIC_PAGE ==>
              EveryPage(pages, order, addrs) && |addrs| * Pow2(order) * pageSize == AlignForward(bytes)
  {
    hide Pow2, Blocks, EveryPage, Allows, Suits;
    var end := ptr + AlignForward(bytes);
    ForwardAligned(ptr, bytes);
    failed, order, addrs := false, 0, [];
    if bytes == 0 || ptr % NIC_PAGE != 0 || end % NIC_PAGE != 0 {
      failed := true;
      return;
    }
    Fits(pageSize, 1, ptr, end);
    FirstPageBelow(pageSize, ptr, end);
    order := BlockOrder(pages, pageSize, ptr, end);
    var block := pageSize * Pow2(order);
    Fits(pageSize, Pow2(order), ptr, end);
    Tiles(pageSize, Pow2(order), ptr, end);
    CoversExactly(pageSize, Pow2(order), ptr, end);
    addrs := BlockAddresses(pages, order, (end - ptr) / block);
    EveryPageExactly(pages, order, addrs);
  }

  lemma FirstPageBelow(ps: nat, ptr: nat, end: nat)
    requires ps > 0 && ptr <= end
    ensures ptr / ps <= end / ps
  {
    var a, b := ptr / ps, end / ps;
    DivMod(ptr, ps);
    DivMod(end, ps);
    if a > b {
      AtLeastOnce(ps, a - b);
      Distribute(ps, a, b);
    }
  }

  lemma ForwardAligned(ptr: nat, bytes: nat)
    ensures AlignForward(bytes) % NIC_PAGE == 0 && AlignForward(bytes) >= bytes
    ensures ptr % NIC_PAGE == 0 ==> (ptr + AlignForward(bytes)) % NIC_PAGE == 0
  {
  }
}
