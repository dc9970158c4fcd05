/** The kernel heap as a set of blocks and a free list (src/heap.c). Blocks are
    only ever split, never joined, so every header ever written stays a block. */
module HeapBlocks {
  import opened Bytes
  import opened Collections

  const HEADER := 24
  const ALIGNMENT := 16

  /** The region handed to heap_init. It does not start in the first 40 bytes,
      so the 64-bit sums of the source stay in range. */
  datatype Region = Region(start: nat, size: nat) {
    ghost predicate Valid() { HEADER + ALIGNMENT <= start && HEADER <= size && start + size <= U64 }

    function End(): nat { start + size }
  }

  /** Block sizes by header address, and the free list in list order. */
  datatype Blocks = Blocks(sizes: map<nat, nat>, free: seq<nat>) {
    function Live(): set<nat> { sizes.Keys - Elements(free) }

    /** The first address behind block b. */
    function Next(b: nat): nat
      requires b in sizes
    {
      b + HEADER + sizes[b]
    }
  }

  /** A pointer is the address behind its block's header. */
  function Block(p: nat): nat {
    if p < HEADER then 0 else p - HEADER
  }

  // ----- The invariant ----------------------------------------------------------

  /** Blocks tile the region: the first starts where it starts, every other where
      its predecessor ends, the last ends where it ends, and none overlap. */
  ghost predicate Tiled(sizes: map<nat, nat>, r: Region) {
    && r.start in sizes
    && (forall b :: b in sizes ==> r.start <= b && b + HEADER + sizes[b] <= r.End())
    && (forall b :: b in sizes ==> b + HEADER + sizes[b] == r.End() || b + HEADER + sizes[b] in sizes)
    && (forall a, b :: a in sizes && b in sizes && a < b ==> a + HEADER + sizes[a] <= b)
  }

  /** The free list names blocks, each at most once. */
  ghost predicate FreeListOk(h: Blocks) {
    && Distinct(h.free)
    && (forall b :: b in h.free ==> b in h.sizes)
  }

  ghost predicate WellFormed(h: Blocks, r: Region) {
    r.Valid() && Tiled(h.sizes, r) && FreeListOk(h)
  }

  ghost predicate Covers(sizes: map<nat, nat>, b: nat, x: nat) {
    b in sizes && b <= x < b + HEADER + sizes[b]
  }

  lemma {:induction false} BlockOf(sizes: map<nat, nat>, r: Region, a: nat, x: nat) returns (b: nat)
    requires Tiled(sizes, r) && a in sizes && a <= x < r.End()
    ensures Covers(sizes, b, x)
    decreases r.End() - a
  {
    if x < a + HEADER + sizes[a] {
      b := a;
    } else {
      b := BlockOf(sizes, r, a + HEADER + sizes[a], x);
    }
  }

  /** Tiling said of bytes: each byte of the region lies in exactly one block. */
  lemma EveryByteInOneBlock(sizes: map<nat, nat>, r: Region, x: nat)
    requires Tiled(sizes, r) && r.start <= x < r.End()
    ensures exists b :: Covers(sizes, b, x) && forall c :: Covers(sizes, c, x) ==> c == b
  {
    var b := BlockOf(sizes, r, r.start, x);
    assert Covers(sizes, b, x);
  }

  // ----- Sizes -----------------------------------------------------------------

  /** align_size, in 64 bits. */
  function Align(n: nat): nat {
    (n + ALIGNMENT - 1) % U64 / ALIGNMENT * ALIGNMENT
  }

  /** Rounding up is right except for the last 15 requests, which wrap to 0. */
  lemma AlignExact(n: nat)
    requires n < U64
    ensures Align(n) % ALIGNMENT == 0
    ensures n <= U64 - ALIGNMENT ==> n <= Align(n) < n + ALIGNMENT
    ensures n > U64 - ALIGNMENT ==> Align(n) == 0
  {
    var m := (n + ALIGNMENT - 1) % U64;
    assert m == ALIGNMENT * (m / ALIGNMENT) + m % ALIGNMENT;
  }

  // ----- The operations ----------------------------------------------------------

  /** find_free_block: the position of the first free block that is big enough. */
  function FirstFit(h: Blocks, n: nat, from: nat := 0): (i: nat)
    requires from <= |h.free| && forall b :: b in h.free ==> b in h.sizes
    ensures from <= i <= |h.free|
    ensures i < |h.free| ==> h.sizes[h.free[i]] >= n
    ensures forall j :: from <= j < i ==> h.sizes[h.free[j]] < n
    decreases |h.free| - from
  {
    if from == |h.free| || h.sizes[h.free[from]] >= n then from else FirstFit(h, n, from + 1)
  }

  /** split_block: the remainder takes a header of its own. */
  function Split(h: Blocks, i: nat, n: nat): Blocks
    requires i < |h.free| && h.free[i] in h.sizes && n <= h.sizes[h.free[i]]
  {
    var b: nat := h.free[i];
    if h.sizes[b] >= n + HEADER + ALIGNMENT then
      var rest := b + HEADER + n;
      Blocks(h.sizes[b := n][rest := h.sizes[b] - n - HEADER], h.free[..i + 1] + [rest] + h.free[i + 1..])
    else h
  }

  /** remove_from_free_list. */
  function Unlink(h: Blocks, i: nat): Blocks
    requires i < |h.free|
  {
    h.(free := h.free[..i] + h.free[i + 1..])
  }

  /** malloc; address 0 says that it failed. */
  function Malloc(h: Blocks, request: nat): (Blocks, nat)
    requires forall b :: b in h.free ==> b in h.sizes
  {
    var i := FirstFit(h, Align(request));
    if request == 0 || i == |h.free| then (h, 0)
    else (Unlink(Split(h, i, Align(request)), i), h.free[i] + HEADER)
  }

  /** free. */
  function Free(h: Blocks, p: nat): Blocks {
    if p < HEADER then h else h.(free := [Block(p)] + h.free)
  }

  /** realloc, but for the bytes. */
  function Realloc(h: Blocks, p: nat, request: nat): (Blocks, nat)
    requires forall b :: b in h.free ==> b in h.sizes
    requires p != 0 ==> Block(p) in h.sizes
  {
    if p == 0 then Malloc(h, request)
    else if request == 0 then (Free(h, p), 0)
    else if Align(request) <= h.sizes[Block(p)] then (h, p)
    else
      var m := Malloc(h, request);
      if m.1 == 0 then m else (Free(m.0, p), m.1)
  }

  /** What a caller may pass to free and realloc. */
  predicate LivePointer(h: Blocks, p: nat) { p >= HEADER && Block(p) in h.Live() }

  // ----- Every operation keeps the invariant -----------------------------------------

  /** Another block ends before block b begins, or begins behind its end. */
  lemma BeforeOrBehind(sizes: map<nat, nat>, r: Region, b: nat, x: nat)
    requires Tiled(sizes, r) && b in sizes && x in sizes && x != b
    ensures if x < b then x + HEADER + sizes[x] <= b else b + HEADER + sizes[b] <= x
  {
  }

  lemma RestIsNew(sizes: map<nat, nat>, r: Region, b: nat, n: nat)
    requires Tiled(sizes, r) && b in sizes && sizes[b] >= n + HEADER
    ensures r.start in sizes && b + HEADER + n !in sizes
  {
  }

  lemma SplitEnd(sizes: map<nat, nat>, r: Region, b: nat, n: nat, x: nat)
    requires Tiled(sizes, r) && b in sizes && sizes[b] >= n + HEADER
    requires x in sizes || x == b + HEADER + n
    ensures var now := sizes[b := n][b + HEADER + n := sizes[b] - n - HEADER];
            && x in now && r.start <= x && x + HEADER + now[x] <= r.End()
            && (x + HEADER + now[x] == r.End() || x + HEADER + now[x] in now)
  {
    RestIsNew(sizes, r, b, n);
    assert b + HEADER + sizes[b] == r.End() || b + HEADER + sizes[b] in sizes;
  }

  lemma SplitApart(sizes: map<nat, nat>, r: Region, b: nat, n: nat, x: nat, y: nat)
    requires Tiled(sizes, r) && b in sizes && sizes[b] >= n + HEADER
    requires var now := sizes[b := n][b + HEADER + n := sizes[b] - n - HEADER]; x in now && y in now && x < y
    ensures x + HEADER + sizes[b := n][b + HEADER + n := sizes[b] - n - HEADER][x] <= y
  {
    hide Tiled;
    if x in sizes && x != b { BeforeOrBehind(sizes, r, b, x); }
    if y in sizes && y != b { BeforeOrBehind(sizes, r, b, y); }
    if x in sizes && y in sizes { BeforeOrBehind(sizes, r, y, x); }
  }

  lemma MakesTiled(sizes: map<nat, nat>, r: Region)
    requires r.start in sizes
    requires forall x :: x in sizes ==>
      && r.start <= x && x + HEADER + sizes[x] <= r.End()
      && (x + HEADER + sizes[x] == r.End() || x + HEADER + sizes[x] in sizes)
    requires forall x, y :: x in sizes && y in sizes && x < y ==> x + HEADER + sizes[x] <= y
    ensures Tiled(sizes, r)
  {
  }

  lemma SplitTiles(sizes: map<nat, nat>, r: Region, b: nat, n: nat)
    requires Tiled(sizes, r) && b in sizes && sizes[b] >= n + HEADER
    ensures var rest := b + HEADER + n; rest !in sizes && Tiled(sizes[b := n][rest := sizes[b] - n - HEADER], r)
  {
    hide Tiled;
    var rest := b + HEADER + n;
    var now := sizes[b := n][rest := sizes[b] - n - HEADER];
    RestIsNew(sizes, r, b, n);
    forall x | x in now
      ensures r.start <= x && x + HEADER + now[x] <= r.End()
      ensures x + HEADER + now[x] == r.End() || x + HEADER + now[x] in now
    {
      SplitEnd(sizes, r, b, n, x);
    }
    forall x, y | x in now && y in now && x < y ensures x + HEADER + now[x] <= y {
      SplitApart(sizes, r, b, n, x, y);
    }
    MakesTiled(now, r);
  }

  lemma Inserted(s: seq<nat>, i: nat, x: nat)
    requires Distinct(s) && x !in s && i < |s|
    ensures var t := s[..i + 1] + [x] + s[i + 1..];
            Distinct(t) && t[i] == s[i] && forall y :: y in t <==> y in s || y == x
  {
    assert s == s[..i + 1] + s[i + 1..];
  }

  lemma Removed(s: seq<nat>, i: nat)
    requires Distinct(s) && i < |s|
    ensures var t := s[..i] + s[i + 1..];
            Distinct(t) && forall y :: y in t <==> y in s && y != s[i]
  {
    assert s == s[..i] + [s[i]] + s[i + 1..];
  }

  lemma SplitKeeps(h: Blocks, r: Region, i: nat, n: nat)
    requires WellFormed(h, r) && i < |h.free| && n <= h.sizes[h.free[i]]
    ensures var h1 := Split(h, i, n);
            && WellFormed(h1, r) && i < |h1.free| && h1.free[i] == h.free[i]
            && h1.Live() == h.Live()
            && h1.sizes[h.free[i]] >= n
            && (forall b :: b in h.sizes && b != h.free[i] ==> b in h1.sizes && h1.sizes[b] == h.sizes[b])
  {
    hide Tiled, Distinct;
    var b: nat := h.free[i];
    if h.sizes[b] >= n + HEADER + ALIGNMENT {
      SplitTiles(h.sizes, r, b, n);
      Inserted(h.free, i, b + HEADER + n);
      assert Split(h, i, n).Live() == h.Live();
    }
  }

  lemma UnlinkKeeps(h: Blocks, r: Region, i: nat)
    requires WellFormed(h, r) && i < |h.free|
    ensures WellFormed(Unlink(h, i), r)
    ensures Unlink(h, i).Live() == h.Live() + {h.free[i]} && h.free[i] !in h.Live()
  {
    hide Tiled, Distinct;
    Removed(h.free, i);
  }

  /** malloc: a zero request or a request no free block can hold fails and changes
      nothing; any other turns one free block into a live one that is large enough,
      and leaves every other live block as it was. */
  lemma MallocKeeps(h: Blocks, r: Region, request: nat)
    requires WellFormed(h, r) && request < U64
    ensures var (h1, p) := Malloc(h, request);
            && WellFormed(h1, r)
            && (p == 0 <==> request == 0 || forall b :: b in h.free ==> h.sizes[b] < Align(request))
            && (p == 0 ==> h1 == h)
            && (p != 0 ==>
                  && p >= HEADER && Block(p) in h.free && Block(p) !in h.Live()
                  && h1.Live() == h.Live() + {Block(p)}
                  && h1.sizes[Block(p)] >= Align(request))
            && forall b :: b in h.Live() ==> b in h1.sizes && h1.sizes[b] == h.sizes[b]
  {
    var i := FirstFit(h, Align(request));
    if request != 0 && i < |h.free| {
      SplitKeeps(h, r, i, Align(request));
      UnlinkKeeps(Split(h, i, Align(request)), r, i);
      assert h.free[i] in h.free;
    }
  }

  lemma Spliced(s: seq<nat>, i: nat, x: nat)
    requires i < |s|
    ensures var t := s[..i + 1] + [x] + s[i + 1..]; t[..i] + t[i + 1..] == s[..i] + [x] + s[i + 1..]
  {
  }

  /** The two cases of malloc, written out. */
  lemma MallocCases(h: Blocks, r: Region, request: nat) returns (i: nat)
    requires WellFormed(h, r) && request < U64 && Malloc(h, request).1 != 0
    ensures i < |h.free| && forall j :: 0 <= j < i ==> h.sizes[h.free[j]] < Align(request)
    ensures var (h1, p) := Malloc(h, request);
            var b, n := h.free[i], Align(request);
            var rest := b + HEADER + n;
            && p == b + HEADER && n <= h.sizes[b]
            && if h.sizes[b] >= n + HEADER + ALIGNMENT then
                 && rest !in h.sizes && h1.sizes == h.sizes[b := n][rest := h.sizes[b] - n - HEADER]
                 && h1.free == h.free[..i] + [rest] + h.free[i + 1..]
               else h1 == Blocks(h.sizes, h.free[..i] + h.free[i + 1..])
  {
    hide Tiled, Align, Distinct;
    var n := Align(request);
    i := FirstFit(h, n);
    var b := h.free[i];
    if h.sizes[b] >= n + HEADER + ALIGNMENT {
      RestIsNew(h.sizes, r, b, n);
      Spliced(h.free, i, b + HEADER + n);
    }
  }

  /** malloc takes the first block of the free list that is large enough, and hands
      out less than 40 bytes more than the aligned request: from 40 spare bytes
      on the block gets exactly that, and the rest stays in the free list. */
  lemma MallocBlock(h: Blocks, r: Region, request: nat)
    requires WellFormed(h, r) && request < U64 && Malloc(h, request).1 != 0
    ensures var (h1, p) := Malloc(h, request);
            var b, n := Block(p), Align(request);
            && b in h.sizes && b in h1.sizes && n <= h.sizes[b]
            && (exists i :: 0 <= i < |h.free| && h.free[i] == b && forall j :: 0 <= j < i ==> h.sizes[h.free[j]] < n)
            && h1.sizes[b] < n + 40
            && (h.sizes[b] < n + 40 ==> h1.sizes == h.sizes)
            && (h.sizes[b] >= n + 40 ==>
                  var rest := b + 24 + n;
                  && h1.sizes[b] == n && rest !in h.sizes && rest in h1.sizes && rest in h1.free
                  && h1.Next(rest) == h.Next(b) && h1.sizes.Keys == h.sizes.Keys + {rest})
  {
    hide Tiled, Align, Malloc, Distinct;
    var i := MallocCases(h, r, request);
    assert h.free[i] in h.free;
  }

  lemma FreeKeeps(h: Blocks, r: Region, p: nat)
    requires WellFormed(h, r) && LivePointer(h, p)
    ensures WellFormed(Free(h, p), r) && Free(h, p).Live() == h.Live() - {Block(p)}
  {
    var h1 := Free(h, p);
    assert forall x :: x in h1.free <==> x in h.free || x == Block(p);
  }

  /** A block just freed is the first that malloc looks at. */
  lemma FreeThenMalloc(h: Blocks, r: Region, p: nat, request: nat)
    requires WellFormed(h, r) && LivePointer(h, p) && 0 < request < U64 && Align(request) <= h.sizes[Block(p)]
    ensures WellFormed(Free(h, p), r) && Malloc(Free(h, p), request).1 == p
  {
    hide Align;
    FreeKeeps(h, r, p);
    assert FirstFit(Free(h, p), Align(request)) == 0;
  }

  /** The block is as large as requested exactly when the request is not one of
      the fifteen that wrap. */
  lemma MallocLargeEnough(h: Blocks, r: Region, request: nat)
    requires WellFormed(h, r) && request < U64 && Malloc(h, request).1 != 0
    ensures var (h1, p) := Malloc(h, request);
            Block(p) in h1.sizes && (h1.sizes[Block(p)] >= request <==> request <= U64 - ALIGNMENT)
  {
    MallocKeeps(h, r, request);
    AlignExact(request);
    var (h1, p) := Malloc(h, request);
    assert Block(p) in h1.Live();
  }

  lemma Inside(h: Blocks, r: Region, b: nat)
    requires WellFormed(h, r) && b in h.sizes
    ensures r.start <= b && h.Next(b) <= r.End()
  {
  }

  lemma ProductLargeEnough(h: Blocks, r: Region, product: nat)
    requires WellFormed(h, r) && Malloc(h, product % U64).1 != 0
    ensures var (h1, p) := Malloc(h, product % U64);
            p - HEADER in h1.sizes && (h1.sizes[Block(p)] >= product <==> product <= U64 - ALIGNMENT)
  {
    hide Malloc, Align, Tiled;
    var (h1, p) := Malloc(h, product % U64);
    MallocLargeEnough(h, r, product % U64);
    MallocKeeps(h, r, product % U64);
    Inside(h1, r, Block(p));
    if product < U64 { assert product % U64 == product; }
  }

  /** calloc multiplies in 64 bits without a check: what it returns holds all the
      elements exactly when the true product is not among those that wrap. */
  lemma CallocLargeEnough(h: Blocks, r: Region, count: nat, each: nat)
    requires WellFormed(h, r) && Malloc(h, count * each % U64).1 != 0
    ensures var (h1, p) := Malloc(h, count * each % U64);
            p - HEADER in h1.sizes && (h1.sizes[Block(p)] >= count * each <==> count * each <= U64 - ALIGNMENT)
  {
    ProductLargeEnough(h, r, count * each);
  }

  function Initial(r: Region): Blocks
    requires HEADER <= r.size
  {
    Blocks(map[r.start := r.size - HEADER], [r.start])
  }

  /** On the kernel's one megabyte heap, 2^60 + 1 elements of 16 bytes get 16 bytes. */
  lemma CallocOverflows(h: Blocks)
    requires h == Initial(Region(0x100_0000, 0x10_0000)) && forall b :: b in h.free ==> b in h.sizes
    ensures var (h1, p) := Malloc(h, 0x1000_0000_0000_0001 * 16 % U64);
            p == 0x100_0018 && Block(p) in h1.sizes && h1.sizes[Block(p)] == 16
  {
    assert FirstFit(h, 16) == 0;
  }

  /** realloc: at most the old block leaves and one other joins the live blocks. */
  lemma ReallocKeeps(h: Blocks, r: Region, p: nat, request: nat)
    requires WellFormed(h, r) && request < U64 && (p == 0 || LivePointer(h, p))
    ensures var (h1, q) := Realloc(h, p, request);
            && WellFormed(h1, r)
            && (q == 0 && request != 0 ==> h1 == h)
            && (q == 0 && request == 0 && p != 0 ==> h1.Live() == h.Live() - {Block(p)})
            && (q != 0 ==> LivePointer(h1, q) && h1.sizes[Block(q)] >= Align(request))
            && (q != 0 && q != p ==> Block(q) in h.free)
            && (forall b :: b in h.Live() ==> b in h1.sizes && h1.sizes[b] == h.sizes[b])
            && (forall b :: b in h.Live() && b != Block(p) ==> b in h1.Live())
            && (forall b :: b in h1.Live() && b != Block(q) ==> b in h.Live())
  {
    hide Tiled, Distinct, Malloc, Align;
    MallocKeeps(h, r, request);
    var (h1, q) := Malloc(h, request);
    if p != 0 {
      if request == 0 {
        FreeKeeps(h, r, p);
      } else if Align(request) > h.sizes[Block(p)] && q != 0 {
        FreeKeeps(h1, r, p);
      }
    }
  }

  /** When realloc of a live block succeeds, and where the block is then. */
  lemma ReallocExact(h: Blocks, r: Region, p: nat, request: nat)
    requires WellFormed(h, r) && LivePointer(h, p) && 0 < request < U64
    ensures var (h1, q), n := Realloc(h, p, request), Align(request);
            && (q == 0 <==> n > h.sizes[Block(p)] && forall b :: b in h.free ==> h.sizes[b] < n)
            && (n <= h.sizes[Block(p)] ==> q == p && h1 == h)
            && (q == p ==> n <= h.sizes[Block(p)])
            && (q != 0 && q != p ==>
                  && Block(p) in h1.free && Block(p) !in h1.Live()
                  && Block(q) in h.free && Block(q) !in h1.free && Block(q) in h1.Live()
                  && n <= h1.sizes[Block(q)] < n + 40)
  {
    hide Tiled, Distinct, Malloc, Align;
    MallocKeeps(h, r, request);
    var (h1, q) := Malloc(h, request);
    if Align(request) > h.sizes[Block(p)] && q != 0 {
      MallocBlock(h, r, request);
      FreeKeeps(h1, r, p);
    }
  }

  /** With a single free block requests are cut from its front. */
  lemma OneFree(h: Blocks, r: Region, b: nat, request: nat)
    requires WellFormed(h, r) && h.free == [b] && 0 < request < U64 && h.sizes[b] >= Align(request) + HEADER + ALIGNMENT
    ensures var (h1, p), n := Malloc(h, request), Align(request);
            && p == b + HEADER && WellFormed(h1, r) && h1.free == [b + HEADER + n] && LivePointer(h1, p)
            && h1.sizes == h.sizes[b := n][b + HEADER + n := h.sizes[b] - n - HEADER]
  {
    hide Tiled, Align, Malloc, Distinct;
    assert b in h.free;
    MallocKeeps(h, r, request);
    var i := MallocCases(h, r, request);
  }

  /** On the kernel's heap three requests are served one behind the other, and a block
      that grows moves behind them. */
  lemma FirstCalls(h: Blocks)
    requires h == Initial(Region(0x100_0000, 0x10_0000)) && WellFormed(h, Region(0x100_0000, 0x10_0000))
    ensures var (h1, p) := Malloc(h, 16);
            && p == 0x100_0018 && WellFormed(h1, Region(0x100_0000, 0x10_0000)) && LivePointer(h1, p)
            && Realloc(h1, p, 100).1 == 0x100_0040
            && Malloc(h1, 100000).1 == 0x100_0040
            && (forall b :: b in Malloc(h1, 100000).0.free ==> b in Malloc(h1, 100000).0.sizes)
            && Malloc(Malloc(h1, 100000).0, 16).1 == 0x101_86F8
  {
    hide WellFormed, Malloc, LivePointer;
    var r := Region(0x100_0000, 0x10_0000);
    OneFree(h, r, 0x100_0000, 16);
    var h1 := Malloc(h, 16).0;
    OneFree(h1, r, 0x100_0028, 100);
    OneFree(h1, r, 0x100_0028, 100000);
    OneFree(Malloc(h1, 100000).0, r, 0x101_86E0, 16);
  }

  // ----- Accounting --------------------------------------------------------------------

  /** What heap_stats adds up along the free list. */
  function ListBytes(sizes: map<nat, nat>, list: seq<nat>): nat
    requires forall b :: b in list ==> b in sizes
  {
    if list == [] then 0 else ListBytes(sizes, list[..|list| - 1]) + sizes[list[|list| - 1]] + HEADER
  }

  lemma ListBytesNext(sizes: map<nat, nat>, list: seq<nat>, i: nat)
    requires i < |list| && forall b :: b in list ==> b in sizes
    ensures ListBytes(sizes, list[..i + 1]) == ListBytes(sizes, list[..i]) + sizes[list[i]] + HEADER
  {
    assert list[..i + 1][..i] == list[..i];
  }

  lemma {:induction false} ListBytesJoin(sizes: map<nat, nat>, a: seq<nat>, c: seq<nat>)
    requires forall b :: b in a + c ==> b in sizes
    ensures (forall b :: b in a ==> b in sizes) && (forall b :: b in c ==> b in sizes)
    ensures ListBytes(sizes, a + c) == ListBytes(sizes, a) + ListBytes(sizes, c)
    decreases |c|
  {
    assert forall b :: b in a || b in c ==> b in a + c;
    if c == [] {
      assert a + c == a;
    } else {
      var n := |c| - 1;
      assert (a + c)[..|a + c| - 1] == a + c[..n];
      ListBytesJoin(sizes, a, c[..n]);
    }
  }

  lemma {:induction false} ListBytesSame(sizes: map<nat, nat>, sizes1: map<nat, nat>, list: seq<nat>)
    requires forall b :: b in list ==> b in sizes && b in sizes1 && sizes1[b] == sizes[b]
    ensures ListBytes(sizes1, list) == ListBytes(sizes, list)
    decreases |list|
  {
    if list != [] { ListBytesSame(sizes, sizes1, list[..|list| - 1]); }
  }

  lemma OneInList(sizes: map<nat, nat>, b: nat)
    requires b in sizes
    ensures ListBytes(sizes, [b]) == sizes[b] + HEADER
  {
    assert ListBytes(sizes, [b][..0]) == 0;
  }

  /** The bytes of a list are those before, at and behind one of its blocks. */
  lemma {:induction false} ListBytesAround(sizes: map<nat, nat>, a: seq<nat>, b: nat, c: seq<nat>)
    requires forall x :: x in a + [b] + c ==> x in sizes
    ensures b in sizes && (forall x :: x in a ==> x in sizes) && (forall x :: x in c ==> x in sizes)
    ensures ListBytes(sizes, a + [b] + c) == ListBytes(sizes, a) + sizes[b] + HEADER + ListBytes(sizes, c)
  {
    assert b in a + [b] + c && forall x :: x in a + [b] ==> x in a + [b] + c;
    ListBytesJoin(sizes, a + [b], c);
    ListBytesJoin(sizes, a, [b]);
    OneInList(sizes, b);
  }

  lemma Apart3(a: seq<nat>, b: nat, c: seq<nat>)
    requires Distinct(a + [b] + c)
    ensures b !in a && b !in c
  {
    var s := a + [b] + c;
    assert s[|a|] == b;
    assert forall i :: 0 <= i < |a| ==> a[i] == s[i];
    assert forall i :: 0 <= i < |c| ==> c[i] == s[|a| + 1 + i];
  }

  lemma SplitBytes(sizes: map<nat, nat>, sizes1: map<nat, nat>, a: seq<nat>, b: nat, rest: nat, c: seq<nat>)
    requires forall x :: x in a + [b] + c ==> x in sizes
    requires forall x :: x in a || x in c ==> x in sizes1 && sizes1[x] == sizes[x]
    requires b in sizes && b in sizes1 && rest in sizes1 && sizes1[b] + HEADER + sizes1[rest] == sizes[b]
    ensures forall x :: x in a + [rest] + c ==> x in sizes1
    ensures ListBytes(sizes1, a + [rest] + c) + sizes1[b] + HEADER == ListBytes(sizes, a + [b] + c)
  {
    hide ListBytes;
    ListBytesAround(sizes, a, b, c);
    ListBytesAround(sizes1, a, rest, c);
    ListBytesSame(sizes, sizes1, a);
    ListBytesSame(sizes, sizes1, c);
  }

  lemma WholeBytes(sizes: map<nat, nat>, a: seq<nat>, b: nat, c: seq<nat>)
    requires forall x :: x in a + [b] + c ==> x in sizes
    ensures b in sizes && forall x :: x in a + c ==> x in sizes
    ensures ListBytes(sizes, a + c) + sizes[b] + HEADER == ListBytes(sizes, a + [b] + c)
  {
    hide ListBytes;
    ListBytesAround(sizes, a, b, c);
    ListBytesJoin(sizes, a, c);
  }

  /** malloc takes exactly the new block from the bytes of the free list. */
  lemma MallocBytes(h: Blocks, r: Region, request: nat)
    requires WellFormed(h, r) && request < U64 && Malloc(h, request).1 != 0
    ensures var (h1, p) := Malloc(h, request);
            && Block(p) in h1.sizes && (forall b :: b in h1.free ==> b in h1.sizes)
            && ListBytes(h1.sizes, h1.free) + h1.sizes[Block(p)] + HEADER == ListBytes(h.sizes, h.free)
  {
    hide Tiled, Align, Malloc, Distinct, ListBytes;
    var n := Align(request);
    var i := MallocCases(h, r, request);
    var h1 := Malloc(h, request).0;
    var b, a, c := h.free[i], h.free[..i], h.free[i + 1..];
    assert h.free == a + [b] + c;
    Apart3(a, b, c);
    if h.sizes[b] >= n + HEADER + ALIGNMENT {
      assert forall x :: x in a || x in c ==> x in h.free;
      SplitBytes(h.sizes, h1.sizes, a, b, b + HEADER + n, c);
    } else {
      WholeBytes(h.sizes, a, b, c);
    }
  }

  /** Size plus header over the blocks of `s`, walking the region upwards from block a. */
  ghost function SetBytes(sizes: map<nat, nat>, r: Region, a: nat, s: set<nat>): nat
    requires Tiled(sizes, r) && a in sizes
    decreases r.End() - a
  {
    var next := a + HEADER + sizes[a];
    (if a in s then HEADER + sizes[a] else 0) + if next == r.End() then 0 else SetBytes(sizes, r, next, s)
  }

  lemma Step(sizes: map<nat, nat>, r: Region, a: nat)
    requires Tiled(sizes, r) && a in sizes
    ensures a + HEADER + sizes[a] == r.End() || (a + HEADER + sizes[a] < r.End() && a + HEADER + sizes[a] in sizes)
  {
  }

  lemma {:induction false} SetBytesSplits(sizes: map<nat, nat>, r: Region, a: nat, s: set<nat>)
    requires Tiled(sizes, r) && a in sizes
    ensures SetBytes(sizes, r, a, s) + SetBytes(sizes, r, a, sizes.Keys - s) == r.End() - a
    decreases r.End() - a
  {
    hide Tiled;
    var next := a + HEADER + sizes[a];
    Step(sizes, r, a);
    if next != r.End() { SetBytesSplits(sizes, r, next, s); }
  }

  /** Adding one block to the set adds that block's bytes. */
  lemma {:induction false} SetBytesAdd(sizes: map<nat, nat>, r: Region, a: nat, s: set<nat>, b: nat)
    requires Tiled(sizes, r) && a in sizes && b in sizes && b !in s
    ensures SetBytes(sizes, r, a, s + {b}) == SetBytes(sizes, r, a, s) + if a <= b then HEADER + sizes[b] else 0
    decreases r.End() - a
  {
    var next := a + HEADER + sizes[a];
    if next != r.End() { SetBytesAdd(sizes, r, next, s, b); }
  }

  lemma {:induction false} NoBytes(sizes: map<nat, nat>, r: Region, a: nat)
    requires Tiled(sizes, r) && a in sizes
    ensures SetBytes(sizes, r, a, {}) == 0
    decreases r.End() - a
  {
    if a + HEADER + sizes[a] != r.End() { NoBytes(sizes, r, a + HEADER + sizes[a]); }
  }

  lemma {:induction false} ListIsSet(sizes: map<nat, nat>, r: Region, list: seq<nat>)
    requires Tiled(sizes, r) && Distinct(list) && forall b :: b in list ==> b in sizes
    ensures ListBytes(sizes, list) == SetBytes(sizes, r, r.start, Elements(list))
  {
    if list == [] {
      assert Elements(list) == {};
      NoBytes(sizes, r, r.start);
    } else {
      var n := |list| - 1;
      ListIsSet(sizes, r, list[..n]);
      assert list == list[..n] + [list[n]];
      assert Elements(list) == Elements(list[..n]) + {list[n]};
      SetBytesAdd(sizes, r, r.start, Elements(list[..n]), list[n]);
    }
  }

  /** Nothing is lost: size plus header over the live blocks is what the free list
      leaves of the region. */
  lemma UsedPlusFree(h: Blocks, r: Region)
    requires WellFormed(h, r)
    ensures SetBytes(h.sizes, r, r.start, h.Live()) + ListBytes(h.sizes, h.free) == r.size
  {
    ListIsSet(h.sizes, r, h.free);
    SetBytesSplits(h.sizes, r, r.start, Elements(h.free));
  }

  // ----- Calls ---------------------------------------------------------------------------

  datatype Call = DoMalloc(n: nat) | DoFree(p: nat) | DoRealloc(p: nat, n: nat) | DoCalloc(k: nat, n: nat)

  /** Callers pass 64-bit sizes, and null or live pointers. */
  predicate Legal(h: Blocks, c: Call) {
    match c
    case DoMalloc(n) => n < U64
    case DoFree(p) => p == 0 || LivePointer(h, p)
    case DoRealloc(p, n) => n < U64 && (p == 0 || LivePointer(h, p))
    case DoCalloc(k, n) => k < U64 && n < U64
  }

  function After(h: Blocks, c: Call): Blocks
    requires Legal(h, c) && forall b :: b in h.free ==> b in h.sizes
  {
    match c
    case DoMalloc(n) => Malloc(h, n).0
    case DoFree(p) => Free(h, p)
    case DoRealloc(p, n) => Realloc(h, p, n).0
    case DoCalloc(k, n) => Malloc(h, k * n % U64).0
  }

  lemma InitialOk(r: Region)
    requires r.Valid()
    ensures WellFormed(Initial(r), r) && Initial(r).Live() == {}
  {
    assert r.start in Initial(r).free;
  }

  // ----- What the callers asked for -------------------------------------------------------

  /** The size a live block was last asked to have, and the request in 64 bits for
      which malloc handed it out; realloc in place changes only the first. */
  datatype Request = Request(asked: nat, granted: nat)

  function AskedFor(asked: map<nat, Request>, p: nat, n: nat): map<nat, Request> {
    if p == 0 then asked else asked[Block(p) := Request(n, n % U64)]
  }

  /** The requests after one more call; calloc is asked for the true product. */
  function Asked(h: Blocks, asked: map<nat, Request>, c: Call): map<nat, Request>
    requires Legal(h, c) && forall b :: b in h.free ==> b in h.sizes
  {
    match c
    case DoMalloc(n) => AskedFor(asked, Malloc(h, n).1, n)
    case DoCalloc(k, n) => AskedFor(asked, Malloc(h, k * n % U64).1, k * n)
    case DoFree(p) => if p == 0 then asked else asked - {Block(p)}
    case DoRealloc(p, n) =>
      var q := Realloc(h, p, n).1;
      if p == 0 then AskedFor(asked, q, n)
      else if n == 0 then asked - {Block(p)}
      else if q == 0 then asked
      else if q == p && Block(p) in asked then asked[Block(p) := Request(n, asked[Block(p)].granted)]
      else (asked - {Block(p)})[Block(q) := Request(n, n)]
  }

  /** Every live block is as large as it was asked to be, except those asked for
      more than 2^64 - 16 bytes, which never are; and it is less than 40 bytes
      larger than the aligned request it was handed out for. */
  ghost predicate HoldsRequests(h: Blocks, asked: map<nat, Request>) {
    && asked.Keys == h.Live()
    && (forall b :: b in asked ==> (h.sizes[b] >= asked[b].asked <==> asked[b].asked <= U64 - ALIGNMENT))
    && (forall b :: b in asked ==> h.sizes[b] < Align(asked[b].granted) + 40)
  }

  /** What the live blocks may take at most: for each the aligned request it was
      handed out for, up to 39 bytes more, and its header. */
  ghost function MostBytes(sizes: map<nat, nat>, r: Region, a: nat, asked: map<nat, Request>): nat
    requires Tiled(sizes, r) && a in sizes
    decreases r.End() - a
  {
    var next := a + HEADER + sizes[a];
    (if a in asked then Align(asked[a].granted) + 39 + HEADER else 0) +
    if next == r.End() then 0 else MostBytes(sizes, r, next, asked)
  }

  lemma {:induction false} UsedBounded(h: Blocks, r: Region, a: nat, asked: map<nat, Request>)
    requires WellFormed(h, r) && HoldsRequests(h, asked) && a in h.sizes
    ensures SetBytes(h.sizes, r, a, h.Live()) <= MostBytes(h.sizes, r, a, asked)
    decreases r.End() - a
  {
    hide Align, Distinct;
    var next := a + HEADER + h.sizes[a];
    if next != r.End() { UsedBounded(h, r, next, asked); }
  }

  lemma MallocHolds(h: Blocks, asked: map<nat, Request>, r: Region, n: nat)
    requires WellFormed(h, r) && HoldsRequests(h, asked)
    ensures var (h1, p) := Malloc(h, n % U64); HoldsRequests(h1, AskedFor(asked, p, n))
  {
    hide Malloc, Align, Tiled;
    MallocKeeps(h, r, n % U64);
    var (h1, p) := Malloc(h, n % U64);
    if p != 0 {
      ProductLargeEnough(h, r, n);
      MallocBlock(h, r, n % U64);
    }
  }

  lemma FreeHolds(h: Blocks, asked: map<nat, Request>, r: Region, p: nat)
    requires WellFormed(h, r) && HoldsRequests(h, asked) && LivePointer(h, p)
    ensures HoldsRequests(Free(h, p), asked - {Block(p)})
  {
    hide Tiled, FreeListOk, Align;
    FreeKeeps(h, r, p);
  }

  lemma InPlaceHolds(h: Blocks, asked: map<nat, Request>, r: Region, p: nat, n: nat)
    requires WellFormed(h, r) && HoldsRequests(h, asked) && LivePointer(h, p) && 0 < n < U64
    requires Align(n) <= h.sizes[Block(p)]
    ensures Block(p) in asked && HoldsRequests(h, asked[Block(p) := Request(n, asked[Block(p)].granted)])
  {
    hide Malloc, Tiled, Distinct, Align;
    Inside(h, r, Block(p));
    AlignExact(n);
  }

  lemma ReallocHolds(h: Blocks, asked: map<nat, Request>, r: Region, p: nat, n: nat)
    requires WellFormed(h, r) && HoldsRequests(h, asked) && LivePointer(h, p) && 0 < n < U64
    ensures HoldsRequests(Realloc(h, p, n).0, Asked(h, asked, DoRealloc(p, n)))
  {
    hide Malloc, Tiled, Align, HoldsRequests, Distinct;
    ReallocExact(h, r, p, n);
    if Align(n) <= h.sizes[Block(p)] {
      InPlaceHolds(h, asked, r, p, n);
    } else {
      MallocKeeps(h, r, n);
      MallocHolds(h, asked, r, n);
      var (h1, q) := Malloc(h, n);
      if q != 0 {
        var asked1 := asked[Block(q) := Request(n, n)];
        FreeHolds(h1, asked1, r, p);
        assert asked1 - {Block(p)} == (asked - {Block(p)})[Block(q) := Request(n, n)];
      }
    }
  }

  // ----- Runs ----------------------------------------------------------------------------

  ghost predicate IsStep(h: Blocks, asked: map<nat, Request>, c: Call, h1: Blocks, asked1: map<nat, Request>) {
    && Legal(h, c)
    && (forall b :: b in h.free ==> b in h.sizes)
    && h1 == After(h, c) && asked1 == Asked(h, asked, c)
  }

  ghost predicate IsRun(states: seq<Blocks>, asked: seq<map<nat, Request>>, calls: seq<Call>, r: Region) {
    && r.Valid()
    && |states| == |asked| == |calls| + 1 && states[0] == Initial(r) && asked[0] == map[]
    && forall i :: 0 <= i < |calls| ==> IsStep(states[i], asked[i], calls[i], states[i + 1], asked[i + 1])
  }

  lemma FreeNull(h: Blocks)
    ensures Free(h, 0) == h
  {
  }

  lemma ReallocNull(h: Blocks, p: nat, n: nat)
    requires (forall b :: b in h.free ==> b in h.sizes) && (p == 0 || LivePointer(h, p))
    ensures p == 0 ==> Realloc(h, p, n) == Malloc(h, n)
    ensures p != 0 && n == 0 ==> Realloc(h, p, n) == (Free(h, p), 0)
  {
    hide Malloc, Align;
  }

  lemma StepHolds(h: Blocks, asked: map<nat, Request>, c: Call, r: Region)
    requires WellFormed(h, r) && HoldsRequests(h, asked) && Legal(h, c)
    ensures HoldsRequests(After(h, c), Asked(h, asked, c))
  {
    hide Tiled, Distinct, Align, Malloc, Realloc, Block, HoldsRequests;
    match c
    case DoMalloc(n) => MallocHolds(h, asked, r, n);
    case DoFree(p) => if p != 0 { FreeHolds(h, asked, r, p); } else { FreeNull(h); }
    case DoRealloc(p, n) =>
      ReallocNull(h, p, n);
      if p == 0 {
        MallocHolds(h, asked, r, n);
      } else if n == 0 {
        FreeHolds(h, asked, r, p);
      } else {
        ReallocHolds(h, asked, r, p, n);
      }
    case DoCalloc(k, n) => MallocHolds(h, asked, r, k * n);
  }

  lemma StepKeeps(h: Blocks, asked: map<nat, Request>, c: Call, h1: Blocks, asked1: map<nat, Request>, r: Region)
    requires WellFormed(h, r) && HoldsRequests(h, asked) && IsStep(h, asked, c, h1, asked1)
    ensures WellFormed(h1, r) && HoldsRequests(h1, asked1)
    ensures forall b :: b in h.Live() && b in h1.Live() ==> h1.sizes[b] == h.sizes[b]
  {
    hide Tiled, Distinct, Align, Malloc, Realloc, Block, HoldsRequests, Asked;
    StepHolds(h, asked, c, r);
    match c
    case DoMalloc(n) => MallocKeeps(h, r, n);
    case DoFree(p) => if p != 0 { FreeKeeps(h, r, p); } else { FreeNull(h); }
    case DoRealloc(p, n) => ReallocKeeps(h, r, p, n);
    case DoCalloc(k, n) => MallocKeeps(h, r, k * n % U64);
  }

  ghost predicate LiveApart(h: Blocks) {
    forall a, b :: a in h.Live() && b in h.Live() && a != b ==> h.Next(a) <= b || h.Next(b) <= a
  }

  lemma Apart(h: Blocks, r: Region)
    requires WellFormed(h, r)
    ensures LiveApart(h) && forall b :: b in h.sizes ==> (b in h.free <==> b !in h.Live())
  {
    assert forall a, b :: a in h.sizes && b in h.sizes && a != b ==> h.Next(a) <= b || h.Next(b) <= a;
  }

  /** After any run: the blocks tile the region, the free list holds exactly the
      blocks that are not live, once each, live blocks do not overlap, hold what was
      asked for and little more, and used plus free is the whole region. */
  lemma {:induction false} RunsKeep(states: seq<Blocks>, asked: seq<map<nat, Request>>, calls: seq<Call>, r: Region,
          n: nat)
    requires IsRun(states, asked, calls, r) && n < |states|
    ensures var h := states[n];
            && WellFormed(h, r)
            && (forall b :: b in h.sizes ==> (b in h.free <==> b !in h.Live()))
            && LiveApart(h) && HoldsRequests(h, asked[n])
            && SetBytes(h.sizes, r, r.start, h.Live()) + ListBytes(h.sizes, h.free) == r.size
            && SetBytes(h.sizes, r, r.start, h.Live()) <= MostBytes(h.sizes, r, r.start, asked[n])
  {
    if n == 0 {
      InitialOk(r);
    } else {
      RunsKeep(states, asked, calls, r, n - 1);
      assert IsStep(states[n - 1], asked[n - 1], calls[n - 1], states[n - 1 + 1], asked[n - 1 + 1]);
      StepKeeps(states[n - 1], asked[n - 1], calls[n - 1], states[n], asked[n], r);
    }
    var h := states[n];
    UsedPlusFree(h, r);
    UsedBounded(h, r, r.start, asked[n]);
    Apart(h, r);
  }

  lemma RunStep(states: seq<Blocks>, asked: seq<map<nat, Request>>, calls: seq<Call>, r: Region, n: nat)
    requires IsRun(states, asked, calls, r) && n < |calls|
    ensures WellFormed(states[n], r) && WellFormed(states[n + 1], r)
    ensures forall b :: b in states[n].Live() && b in states[n + 1].Live() ==>
      states[n + 1].sizes[b] == states[n].sizes[b]
  {
    hide WellFormed, HoldsRequests;
    RunsKeep(states, asked, calls, r, n);
    RunsKeep(states, asked, calls, r, n + 1);
    StepKeeps(states[n], asked[n], calls[n], states[n + 1], asked[n + 1], r);
  }

  /** A block keeps its place and its size for as long as it stays live, whatever
      is called meanwhile. */
  lemma {:induction false} AllocationStays(states: seq<Blocks>, asked: seq<map<nat, Request>>, calls: seq<Call>,
          r: Region, i: nat, n: nat, b: nat)
    requires IsRun(states, asked, calls, r) && i <= n < |states|
    requires forall j :: i <= j <= n ==> b in states[j].Live()
    ensures b in states[i].sizes && b in states[n].sizes && states[n].sizes[b] == states[i].sizes[b]
    ensures r.start <= b && states[n].Next(b) <= r.End()
  {
    hide Tiled, FreeListOk, LiveApart, IsStep, SetBytes, ListBytes, HoldsRequests;
    if i < n {
      RunStep(states, asked, calls, r, n - 1);
      AllocationStays(states, asked, calls, r, i, n - 1, b);
    } else {
      RunsKeep(states, asked, calls, r, n);
    }
    Inside(states[n], r, b);
  }
}
