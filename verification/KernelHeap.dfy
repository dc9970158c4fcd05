/** The heap's headers, its linked free list and its bytes, updated in place
    (src/heap.c). */
module KernelHeap {
  import opened Bytes
  import opened Collections
  import opened HeapBlocks

  const HEAP_MAGIC := 0xDEAD_BEEF
  const NULL: nat := 0

  datatype Header = Header(size: nat, next: nat, magic: nat)

  // ----- Headers and the list they form -------------------------------------------

  function Sizes(hdr: map<nat, Header>): (sizes: map<nat, nat>)
    ensures sizes.Keys == hdr.Keys
  {
    map b | b in hdr :: hdr[b].size
  }

  function At(free: seq<nat>, i: nat): nat {
    if i < |free| then free[i] else 0
  }

  /** The free list starts at `head`, follows the next pointers and ends with null. */
  ghost predicate Linked(hdr: map<nat, Header>, head: nat, free: seq<nat>) {
    && head == At(free, 0)
    && forall i :: 0 <= i < |free| ==> free[i] in hdr && hdr[free[i]].next == At(free, i + 1)
  }

  ghost predicate Magic(hdr: map<nat, Header>) {
    forall b :: b in hdr ==> hdr[b].magic == HEAP_MAGIC
  }

  /** The next pointer of an allocated block is null. */
  ghost predicate LiveUnlinked(hdr: map<nat, Header>, free: seq<nat>) {
    forall b :: b in hdr && b !in free ==> hdr[b].next == 0
  }

  /** A new block spliced in behind the i-th. */
  lemma SpliceLinks(hdr: map<nat, Header>, hdr1: map<nat, Header>, head: nat, free: seq<nat>, i: nat, rest: nat)
    requires Linked(hdr, head, free) && i < |free| && rest in hdr1 && free[i] in hdr1
    requires hdr1[rest].next == hdr[free[i]].next && hdr1[free[i]].next == rest
    requires forall j :: 0 <= j < |free| && j != i ==> free[j] in hdr1 && hdr1[free[j]].next == hdr[free[j]].next
    ensures Linked(hdr1, head, free[..i + 1] + [rest] + free[i + 1..])
  {
    var list := free[..i + 1] + [rest] + free[i + 1..];
    forall j | 0 <= j < |list| ensures list[j] in hdr1 && hdr1[list[j]].next == At(list, j + 1) {
      if j > i + 1 { assert list[j] == free[j - 1]; }
    }
  }

  /** The i-th block taken out: its predecessor, or the head, skips it. */
  lemma SkipLinks(hdr: map<nat, Header>, hdr1: map<nat, Header>, head: nat, free: seq<nat>, i: nat)
    requires Linked(hdr, head, free) && i < |free|
    requires forall j :: 0 <= j < |free| && j != i ==>
      free[j] in hdr1 && hdr1[free[j]].next == if j + 1 == i then hdr[free[i]].next else hdr[free[j]].next
    ensures Linked(hdr1, if i == 0 then hdr[free[0]].next else head, free[..i] + free[i + 1..])
  {
    var list := free[..i] + free[i + 1..];
    forall j | 0 <= j < |list| ensures list[j] in hdr1 && hdr1[list[j]].next == At(list, j + 1) {
      if j >= i { assert list[j] == free[j + 1]; }
    }
  }

  function WithSplit(hdr: map<nat, Header>, b: nat, n: nat, rest: nat, left: nat): map<nat, Header>
    requires b in hdr && rest !in hdr
  {
    hdr[rest := Header(left, hdr[b].next, HEAP_MAGIC)][b := Header(n, rest, hdr[b].magic)]
  }

  lemma SplitHeaders(hdr: map<nat, Header>, b: nat, n: nat, rest: nat, left: nat)
    requires b in hdr && rest !in hdr && Magic(hdr)
    ensures var hdr1 := WithSplit(hdr, b, n, rest, left);
            Sizes(hdr1) == Sizes(hdr)[b := n][rest := left] && Magic(hdr1)
  {
  }

  lemma SplitLinks(hdr: map<nat, Header>, head: nat, free: seq<nat>, i: nat, n: nat, rest: nat, left: nat)
    requires Linked(hdr, head, free) && Distinct(free) && i < |free| && rest !in hdr
    ensures free[i] in hdr
    ensures Linked(WithSplit(hdr, free[i], n, rest, left), head, free[..i + 1] + [rest] + free[i + 1..])
  {
    hide Magic, Sizes;
    var hdr1 := WithSplit(hdr, free[i], n, rest, left);
    forall j | 0 <= j < |free| && j != i ensures free[j] in hdr1 && hdr1[free[j]].next == hdr[free[j]].next {
      assert free[j] != free[i];
    }
    SpliceLinks(hdr, hdr1, head, free, i, rest);
  }

  lemma SplitUnlinked(hdr: map<nat, Header>, free: seq<nat>, i: nat, n: nat, rest: nat, left: nat)
    requires LiveUnlinked(hdr, free) && Distinct(free) && i < |free| && free[i] in hdr && rest !in hdr && rest !in free
    ensures LiveUnlinked(WithSplit(hdr, free[i], n, rest, left), free[..i + 1] + [rest] + free[i + 1..])
  {
    hide Distinct;
    Inserted(free, i, rest);
  }

  function WithNext(hdr: map<nat, Header>, b: nat, next: nat): (hdr1: map<nat, Header>)
    requires b in hdr
    ensures Sizes(hdr1) == Sizes(hdr) && (Magic(hdr) ==> Magic(hdr1))
  {
    hdr[b := hdr[b].(next := next)]
  }

  lemma UnlinkLinks(hdr: map<nat, Header>, head: nat, free: seq<nat>, i: nat)
    requires Linked(hdr, head, free) && Distinct(free) && i < |free|
    ensures free[i] in hdr && (i > 0 ==> free[i - 1] in hdr)
    ensures var list := free[..i] + free[i + 1..];
            if i == 0 then Linked(hdr, hdr[free[0]].next, list)
            else Linked(WithNext(hdr, free[i - 1], hdr[free[i]].next), head, list)
  {
    if i == 0 {
      SkipLinks(hdr, hdr, head, free, i);
    } else {
      SkipLinks(hdr, WithNext(hdr, free[i - 1], hdr[free[i]].next), head, free, i);
    }
  }

  lemma RestUnlinked(hdr: map<nat, Header>, free: seq<nat>, i: nat, next: nat)
    requires LiveUnlinked(hdr, free) && Distinct(free) && i < |free|
    ensures var list := free[..i] + free[i + 1..] + [free[i]];
            && LiveUnlinked(hdr, list)
            && (i > 0 && free[i - 1] in hdr ==> LiveUnlinked(WithNext(hdr, free[i - 1], next), list))
  {
    Removed(free, i);
    assert i > 0 ==> free[i - 1] in free[..i];
  }

  lemma NullUnlinked(hdr: map<nat, Header>, list: seq<nat>, b: nat)
    requires LiveUnlinked(hdr, list + [b]) && b in hdr
    ensures LiveUnlinked(WithNext(hdr, b, NULL), list)
  {
  }

  /** Only the block's own pointer changes. */
  lemma OutsideLinks(hdr: map<nat, Header>, head: nat, list: seq<nat>, b: nat, next: nat)
    requires Linked(hdr, head, list) && b in hdr && b !in list
    ensures Linked(WithNext(hdr, b, next), head, list)
  {
  }

  lemma PushLinks(hdr: map<nat, Header>, head: nat, list: seq<nat>, b: nat)
    requires Linked(hdr, head, list) && b in hdr && b !in list
    ensures Linked(WithNext(hdr, b, head), b, [b] + list)
    ensures LiveUnlinked(hdr, list) ==> LiveUnlinked(WithNext(hdr, b, head), [b] + list)
  {
    assert forall x :: x in [b] + list <==> x == b || x in list;
  }

  function Zeros(n: nat): (z: seq<byte>)
    ensures |z| == n
  {
    seq(n, i => 0)
  }

  // ----- Payloads -------------------------------------------------------------------

  /** The n bytes behind block b's header; `m` holds the region from `start` on. */
  function PayloadOf(m: seq<byte>, start: nat, b: nat, n: nat): seq<byte> {
    if start <= b && b + HEADER - start + n <= |m| then m[b + HEADER - start..b + HEADER - start + n] else []
  }

  ghost predicate SamePayloads(m: seq<byte>, m1: seq<byte>, start: nat, hdr: map<nat, Header>, except: nat) {
    forall b :: b in hdr && b != except ==>
      PayloadOf(m1, start, b, hdr[b].size) == PayloadOf(m, start, b, hdr[b].size)
  }

  /** These live blocks are still blocks, of the same size and with the same bytes. */
  ghost predicate PayloadsKept(live: set<nat>, start: nat, m: seq<byte>, hdr: map<nat, Header>, m1: seq<byte>,
          hdr1: map<nat, Header>)
  {
    forall b :: b in live ==>
      && b in hdr && b in hdr1 && hdr1[b].size == hdr[b].size
      && PayloadOf(m1, start, b, hdr1[b].size) == PayloadOf(m, start, b, hdr[b].size)
  }

  lemma {:induction false} KeptByWrite(h: Blocks, h1: Blocks, live: set<nat>, start: nat, m: seq<byte>, hdr: map<nat,
          Header>, m1: seq<byte>, hdr1: map<nat, Header>, q: nat)
    requires h.sizes == Sizes(hdr) && h1.sizes == Sizes(hdr1) && live <= h.Live() && q !in live
    requires forall b :: b in h.Live() ==> b in h1.sizes && h1.sizes[b] == h.sizes[b]
    requires SamePayloads(m, m1, start, hdr1, q)
    ensures PayloadsKept(live, start, m, hdr, m1, hdr1)
  {
    hide PayloadOf;
    forall b | b in live
      ensures b in hdr && b in hdr1 && hdr1[b].size == hdr[b].size
      ensures PayloadOf(m1, start, b, hdr1[b].size) == PayloadOf(m, start, b, hdr[b].size)
    {
      assert h.sizes[b] == hdr[b].size && h1.sizes[b] == hdr1[b].size;
    }
  }

  lemma {:induction false} KeptByHeaders(h: Blocks, h1: Blocks, live: set<nat>, start: nat, m: seq<byte>, hdr: map<nat,
          Header>, hdr1: map<nat, Header>)
    requires h.sizes == Sizes(hdr) && h1.sizes == Sizes(hdr1) && live <= h.Live()
    requires forall b :: b in h.Live() ==> b in h1.sizes && h1.sizes[b] == h.sizes[b]
    ensures PayloadsKept(live, start, m, hdr, m, hdr1)
  {
    hide PayloadOf;
    forall b | b in live ensures b in hdr && b in hdr1 && hdr1[b].size == hdr[b].size {
      assert h.sizes[b] == hdr[b].size && h1.sizes[b] == hdr1[b].size;
    }
  }

  /** Payloads depend on the sizes in the headers only. */
  lemma {:induction false} SameSizes(hdr: map<nat, Header>, hdr1: map<nat, Header>, start: nat, m: seq<byte>,
          m1: seq<byte>, q: nat)
    requires Sizes(hdr) == Sizes(hdr1) && SamePayloads(m, m1, start, hdr, q)
    ensures SamePayloads(m, m1, start, hdr1, q)
  {
    hide PayloadOf;
    forall b | b in hdr1 && b != q
      ensures PayloadOf(m1, start, b, hdr1[b].size) == PayloadOf(m, start, b, hdr1[b].size)
    {
      assert Sizes(hdr)[b] == hdr[b].size && Sizes(hdr1)[b] == hdr1[b].size;
    }
  }

  lemma InTiles(hdr: map<nat, Header>, r: Region, b: nat)
    requires Tiled(Sizes(hdr), r) && b in hdr
    ensures r.start <= b && b + HEADER + hdr[b].size <= r.End()
  {
    assert Sizes(hdr)[b] == hdr[b].size;
  }

  lemma TilesApart(hdr: map<nat, Header>, r: Region, a: nat, b: nat)
    requires Tiled(Sizes(hdr), r) && a in hdr && b in hdr && a != b
    ensures a + HEADER + hdr[a].size <= b || b + HEADER + hdr[b].size <= a
  {
    assert Sizes(hdr)[a] == hdr[a].size && Sizes(hdr)[b] == hdr[b].size;
    assert a < b || b < a;
  }

  /** Writing the front of one payload leaves every other payload as it was. */
  lemma {:induction false} WriteOnePayload(m: seq<byte>, r: Region, hdr: map<nat, Header>, q: nat, d: seq<byte>)
    requires Tiled(Sizes(hdr), r) && |m| == r.size && q in hdr && |d| <= hdr[q].size
    ensures r.start <= q && q + HEADER + hdr[q].size <= r.End()
    ensures var m1 := Splice(m, q + HEADER - r.start, d);
            && SamePayloads(m, m1, r.start, hdr, q)
            && |PayloadOf(m, r.start, q, hdr[q].size)| == hdr[q].size
            && PayloadOf(m1, r.start, q, hdr[q].size) == d + PayloadOf(m, r.start, q, hdr[q].size)[|d|..]
  {
    hide Tiled, Sizes, Splice;
    InTiles(hdr, r, q);
    var m1 := Splice(m, q + HEADER - r.start, d);
    forall b | b in hdr && b != q
      ensures PayloadOf(m1, r.start, b, hdr[b].size) == PayloadOf(m, r.start, b, hdr[b].size)
    {
      InTiles(hdr, r, b);
      TilesApart(hdr, r, b, q);
      SpliceOutside(m, q + HEADER - r.start, d, b + HEADER - r.start, b + HEADER - r.start + hdr[b].size);
    }
    SpliceFront(m, q + HEADER - r.start, d, hdr[q].size);
  }

  // ----- The heap ---------------------------------------------------------------------

  lemma AddMod(a: nat, b: nat)
    ensures (a % U32 + b) % U32 == (a + b) % U32
  {
    var q := a / U32;
    assert a + b == U32 * q + (a % U32 + b);
  }

  lemma SubtractMod(size: nat, free: nat)
    requires free <= size
    ensures ((size - free % U32) % U32 + free % U32) % U32 == size % U32
    ensures size < U32 ==> (size - free % U32) % U32 == size - free && free % U32 == free
  {
    var d := size - free % U32;
    assert size == U32 * (d / U32) + (d % U32 + free % U32);
  }

  class Heap {
    const start: nat
    const size: nat
    const mem: array<byte>
    var freeList: nat
    var hdr: map<nat, Header>
    ghost var free: seq<nat>

    function Whole(): Region { Region(start, size) }

    ghost function View(): Blocks
      reads this
    {
      Blocks(Sizes(hdr), free)
    }

    ghost predicate Core()
      reads this
    {
      && WellFormed(View(), Whole())
      && mem.Length == size
      && Linked(hdr, freeList, free)
      && Magic(hdr)
    }

    ghost predicate Valid()
      reads this
    {
      Core() && LiveUnlinked(hdr, free)
    }

    /** The bytes of block b's payload. */
    ghost function Payload(b: nat): seq<byte>
      requires b in hdr
      reads this, mem
    {
      PayloadOf(mem[..], start, b, hdr[b].size)
    }

    /** heap_init. */
    constructor (start: nat, size: nat)
      requires Region(start, size).Valid()
      ensures Valid() && View() == Initial(Region(start, size)) && Whole() == Region(start, size)
      ensures fresh(mem)
    {
      this.start, this.size := start, size;
      mem := new byte[size];
      freeList := start;
      hdr := map[start := Header(size - HEADER, 0, HEAP_MAGIC)];
      free := [start];
      InitialOk(Region(start, size));
    }

    /** find_free_block. */
    method FindFreeBlock(n: nat) returns (block: nat)
      requires Valid()
      ensures block == At(free, FirstFit(View(), n))
    {
      block := freeList;
      ghost var i := 0;
      while block != NULL
        invariant i <= |free| && block == At(free, i)
        invariant FirstFit(View(), n) == FirstFit(View(), n, i)
        decreases |free| - i
      {
        if hdr[block].magic != HEAP_MAGIC { return NULL; }
        if hdr[block].size >= n { return; }
        block := hdr[block].next;
        i := i + 1;
      }
    }

    lemma SplitFacts(i: nat, n: nat)
      requires Valid() && i < |free| && free[i] in hdr && n <= hdr[free[i]].size
      ensures Distinct(free) && free[i] in View().sizes && n + HEADER + ALIGNMENT < U64
      ensures WellFormed(Split(View(), i, n), Whole())
      ensures hdr[free[i]].size >= n + HEADER + ALIGNMENT ==>
        free[i] + HEADER + n !in hdr && free[i] + HEADER + n !in free
      ensures Sizes(hdr)[free[i]] == hdr[free[i]].size
    {
      SplitKeeps(View(), Whole(), i, n);
      if hdr[free[i]].size >= n + HEADER + ALIGNMENT {
        SplitTiles(Sizes(hdr), Whole(), free[i], n);
      }
    }

    /** split_block. */
    method SplitBlock(ghost i: nat, block: nat, n: nat)
      requires Valid() && i < |free| && block == free[i] && block in hdr && n <= hdr[block].size
      modifies this
      ensures Valid() && View() == Split(old(View()), i, n)
    {
      hide WellFormed, Tiled, Linked, LiveUnlinked, Sizes, Magic;
      SplitFacts(i, n);
      if hdr[block].size >= (n + HEADER + ALIGNMENT) % U64 {
        var rest := block + HEADER + n;
        SplitHeaders(hdr, block, n, rest, hdr[block].size - n - HEADER);
        SplitLinks(hdr, freeList, free, i, n, rest, hdr[block].size - n - HEADER);
        SplitUnlinked(hdr, free, i, n, rest, hdr[block].size - n - HEADER);
        hdr := hdr[rest := Header(hdr[block].size - n - HEADER, hdr[block].next, HEAP_MAGIC)];
        hdr := hdr[block := hdr[block].(size := n, next := rest)];
        free := free[..i + 1] + [rest] + free[i + 1..];
      }
    }

    lemma UnlinkFacts(i: nat)
      requires Valid() && i < |free|
      ensures Distinct(free) && NULL !in free && WellFormed(Unlink(View(), i), Whole())
      ensures free[i] !in Unlink(View(), i).free
    {
      UnlinkKeeps(View(), Whole(), i);
      Removed(free, i);
    }

    /** remove_from_free_list. */
    method RemoveFromFreeList(ghost i: nat, block: nat)
      requires Valid() && i < |free| && block == free[i]
      modifies this
      ensures Core() && View() == Unlink(old(View()), i)
      ensures LiveUnlinked(hdr, free + [block]) && block in hdr && block !in free
    {
      hide WellFormed, Tiled, LiveUnlinked, Sizes, Magic;
      UnlinkFacts(i);
      ghost var list := free[..i] + free[i + 1..];
      RestUnlinked(hdr, free, i, hdr[block].next);
      UnlinkLinks(hdr, freeList, free, i);
      if freeList == block {
        freeList := hdr[block].next;
        free := list;
        return;
      }
      var current := freeList;
      ghost var j := 0;
      while current != NULL && hdr[current].next != block
        invariant j < i && current == free[j]
        decreases i - j
      {
        assert j + 1 != i && At(free, j + 1) == free[j + 1];
        current := hdr[current].next;
        j := j + 1;
      }
      if current != NULL {
        hdr := hdr[current := hdr[current].(next := hdr[block].next)];
      }
      free := list;
    }

    lemma MallocFacts(n: nat)
      requires Valid()
      ensures NULL !in free && forall b :: b in free ==> b in View().sizes
      ensures var i := FirstFit(View(), n);
              i < |free| ==>
                && free[i] in hdr && n <= hdr[free[i]].size
                && i < |Split(View(), i, n).free| && Split(View(), i, n).free[i] == free[i]
    {
      var i := FirstFit(View(), n);
      if i < |free| { SplitKeeps(View(), Whole(), i, n); }
    }

    /** malloc. */
    method Malloc(request: nat) returns (p: nat)
      requires Valid() && request < U64
      modifies this
      ensures Valid() && (View(), p) == HeapBlocks.Malloc(old(View()), request)
    {
      hide WellFormed, Tiled, Linked, LiveUnlinked, Sizes, Magic, Distinct;
      if request == 0 { return NULL; }
      var n := Align(request);
      MallocFacts(n);
      ghost var i := FirstFit(View(), n);
      var block := FindFreeBlock(n);
      if block == NULL { return NULL; }
      SplitBlock(i, block, n);
      RemoveFromFreeList(i, block);
      OutsideLinks(hdr, freeList, free, block, NULL);
      NullUnlinked(hdr, free, block);
      hdr := hdr[block := hdr[block].(next := NULL)];
      return block + HEADER;
    }

    lemma FreeFacts(p: nat)
      requires Valid() && LivePointer(View(), p)
      ensures var b := Block(p); b in hdr && hdr[b].magic == HEAP_MAGIC && b !in free
      ensures WellFormed(HeapBlocks.Free(View(), p), Whole())
    {
      FreeKeeps(View(), Whole(), p);
    }

    /** free. */
    method Free(p: nat)
      requires Valid() && (p == 0 || LivePointer(View(), p))
      modifies this
      ensures Valid() && View() == HeapBlocks.Free(old(View()), p)
    {
      hide WellFormed, Tiled, Linked, LiveUnlinked, Sizes, Magic, Distinct;
      if p == NULL { return; }
      var block: nat := p - HEADER;
      FreeFacts(p);
      if hdr[block].magic != HEAP_MAGIC { return; }
      PushLinks(hdr, freeList, free, block);
      hdr := hdr[block := hdr[block].(next := freeList)];
      freeList := block;
      free := [block] + free;
    }

    // ----- The bytes ------------------------------------------------------------------

    lemma {:induction false} PayloadWrite(b: nat, d: seq<byte>)
      requires Valid() && b in hdr && |d| <= hdr[b].size
      ensures start <= b && b + HEADER + hdr[b].size <= start + size == start + mem.Length
      ensures var m1 := Splice(mem[..], b + HEADER - start, d);
              && SamePayloads(mem[..], m1, start, hdr, b)
              && |Payload(b)| == hdr[b].size
              && PayloadOf(m1, start, b, hdr[b].size) == d + Payload(b)[|d|..]
    {
      WriteOnePayload(mem[..], Whole(), hdr, b, d);
    }

    lemma PayloadBounds(a: nat, b: nat)
      requires Valid() && a in hdr && b in hdr && a != b
      ensures start <= a && a + HEADER + hdr[a].size <= start + size
      ensures a + HEADER + hdr[a].size <= b || b + HEADER + hdr[b].size <= a
    {
      InTiles(hdr, Whole(), a);
      TilesApart(hdr, Whole(), a, b);
    }

    /** What is copied next is still what it was, and where it goes comes next. */
    lemma {:induction false} CopiedSoFar(was: seq<byte>, data: seq<byte>, p: nat, q: nat, i: nat)
      requires Valid() && p >= HEADER && q >= HEADER && p != q && Block(p) in hdr && Block(q) in hdr
      requires |was| == size && i < hdr[Block(p)].size && i < hdr[Block(q)].size
      requires |data| == hdr[Block(p)].size && data == PayloadOf(was, start, Block(p), hdr[Block(p)].size)
      requires start <= Block(q) && start <= Block(p) && q - start + i < size && mem.Length == size
      requires mem[..] == Splice(was, q - start, data[..i])
      ensures p - start + i < size && mem[p - start + i] == data[i]
      ensures mem[..][q - start + i := data[i]] == Splice(was, q - start, data[..i + 1])
    {
      hide WellFormed, Linked, LiveUnlinked, Magic, Sizes, Splice;
      PayloadBounds(Block(p), Block(q));
      SpliceOutside(was, q - start, data[..i], p - start, p - start + |data|);
      assert mem[..][p - start..p - start + |data|][i] == data[i];
      SpliceNext(was, q - start, data[..i], data[i]);
      assert data[..i] + [data[i]] == data[..i + 1];
    }

    /** The copying loop of realloc. */
    method CopyBytes(p: nat, q: nat, request: nat)
      requires Valid() && p >= HEADER && q >= HEADER && p != q
      requires Block(p) in hdr && Block(q) in hdr && Min(hdr[Block(p)].size, request) <= hdr[Block(q)].size
      modifies mem
      ensures SamePayloads(old(mem[..]), mem[..], start, hdr, Block(q))
      ensures var n := Min(hdr[Block(p)].size, request);
              && n <= |old(Payload(Block(p)))| && n <= |old(Payload(Block(q)))|
              && Payload(Block(q)) == old(Payload(Block(p)))[..n] + old(Payload(Block(q)))[n..]
    {
      hide WellFormed, Linked, LiveUnlinked, Magic, Sizes, SamePayloads, PayloadOf, Splice;
      ghost var was, data := mem[..], Payload(Block(p));
      PayloadWrite(Block(p), []);
      PayloadWrite(Block(q), data[..Min(hdr[Block(p)].size, request)]);
      SpliceNone(was, q - start);
      var i := 0;
      while i < hdr[Block(p)].size && i < request
        invariant 0 <= i <= Min(hdr[Block(p)].size, request)
        invariant mem[..] == Splice(was, q - start, data[..i])
      {
        CopiedSoFar(was, data, p, q, i);
        mem[q - start + i] := mem[p - start + i];
        i := i + 1;
      }
    }

    /** The zeroing loop of calloc. */
    method ZeroBytes(p: nat, n: nat)
      requires Valid() && p >= HEADER && Block(p) in hdr && n <= hdr[Block(p)].size
      modifies mem
      ensures SamePayloads(old(mem[..]), mem[..], start, hdr, Block(p))
      ensures n <= |old(Payload(Block(p)))| && Payload(Block(p)) == Zeros(n) + old(Payload(Block(p)))[n..]
    {
      hide WellFormed, Linked, LiveUnlinked, Magic, Sizes, SamePayloads, PayloadOf, Splice;
      ghost var was := mem[..];
      PayloadWrite(Block(p), Zeros(n));
      SpliceNone(was, p - start);
      var i := 0;
      while i < n
        invariant 0 <= i <= n
        invariant mem[..] == Splice(was, p - start, Zeros(i))
      {
        SpliceNext(was, p - start, Zeros(i), 0);
        assert Zeros(i) + [0] == Zeros(i + 1);
        mem[p - start + i] := 0;
        i := i + 1;
      }
    }

    // ----- realloc, calloc and the statistics ------------------------------------------

    lemma SizeOf(b: nat)
      requires Valid() && b in hdr
      ensures View().sizes.Keys == hdr.Keys && View().sizes[b] == hdr[b].size == |Payload(b)|
    {
      PayloadWrite(b, []);
    }

    lemma MallocOutcome(request: nat)
      requires Valid() && request < U64
      ensures View().sizes.Keys == hdr.Keys
      ensures var (h1, q) := HeapBlocks.Malloc(View(), request);
              && (forall b :: b in View().Live() ==> b in h1.sizes && h1.sizes[b] == View().sizes[b])
              && (forall p :: q != 0 && LivePointer(View(), p) ==> q != p && LivePointer(h1, p))
              && (q == 0 ==> h1 == View())
              && (q != 0 ==> q >= HEADER && Block(q) in h1.sizes && Block(q) !in View().Live()
                             && h1.sizes[Block(q)] >= Align(request))
    {
      MallocKeeps(View(), Whole(), request);
    }

    /** realloc: the first min(old size, request) bytes move along, every other live
        block keeps its bytes, and a failure for lack of room keeps the old one, too. */
    method Realloc(p: nat, request: nat) returns (q: nat)
      requires Valid() && request < U64 && (p == NULL || LivePointer(View(), p))
      modifies this, mem
      ensures Valid() && (View(), q) == HeapBlocks.Realloc(old(View()), p, request)
      ensures PayloadsKept(old(View().Live()) - if q == NULL && request != 0 then {} else {Block(p)},
                           start, old(mem[..]), old(hdr), mem[..], hdr)
      ensures q == NULL && request != 0 ==> View() == old(View())
      ensures p != NULL && q != NULL ==>
        var n := Min(old(hdr[Block(p)].size), request);
        && Block(q) in hdr && n <= |Payload(Block(q))| && n <= |old(Payload(Block(p)))|
        && Payload(Block(q))[..n] == old(Payload(Block(p)))[..n]
    {
      hide WellFormed, Linked, LiveUnlinked, Magic, Sizes, SamePayloads, PayloadOf, PayloadsKept, HeapBlocks.Malloc;
      MallocOutcome(request);
      ghost var h, m, hdr0 := View(), mem[..], hdr;
      if p == NULL {
        q := Malloc(request);
        KeptByHeaders(h, View(), h.Live() - if q == NULL && request != 0 then {} else {Block(p)}, start, m, hdr0, hdr);
        return;
      }
      SizeOf(Block(p));
      FreeFacts(p);
      if request == 0 {
        Free(p);
        KeptByHeaders(h, View(), h.Live() - {Block(p)}, start, m, hdr0, hdr);
        return NULL;
      }
      var block: nat := p - HEADER;
      if hdr[block].magic != HEAP_MAGIC { return NULL; }
      if Align(request) <= hdr[block].size {
        KeptByHeaders(h, h, h.Live() - {Block(p)}, start, m, hdr0, hdr);
        return p;
      }
      q := Malloc(request);
      if q == NULL {
        KeptByHeaders(h, View(), h.Live() - {}, start, m, hdr0, hdr);
        return;
      }
      SizeOf(block);
      SizeOf(Block(q));
      CopyBytes(p, q, request);
      SizeOf(Block(q));
      ghost var hdr1, m1 := hdr, mem[..];
      assert SamePayloads(m, m1, start, hdr1, Block(q));
      Free(p);
      SizeOf(Block(q));
      SameSizes(hdr1, hdr, start, m, m1, Block(q));
      KeptByWrite(h, View(), h.Live() - {block}, start, m, hdr0, mem[..], hdr, Block(q));
    }

    lemma EmptyListFails(request: nat)
      requires Valid()
      ensures free == [] ==> HeapBlocks.Malloc(View(), request) == (View(), 0)
    {
    }

    /** calloc: as many bytes as the 64-bit product says, all zero. */
    method Calloc(count: nat, each: nat) returns (p: nat)
      requires Valid() && count < U64 && each < U64 && (count * each % U64 <= U64 - ALIGNMENT || free == [])
      modifies this, mem
      ensures Valid() && (View(), p) == HeapBlocks.Malloc(old(View()), count * each % U64)
      ensures PayloadsKept(old(View().Live()), start, old(mem[..]), old(hdr), mem[..], hdr)
      ensures p != NULL ==>
        var n := count * each % U64;
        Block(p) in hdr && n <= |Payload(Block(p))| && Payload(Block(p))[..n] == Zeros(n)
    {
      hide WellFormed, Linked, LiveUnlinked, Magic, Sizes, SamePayloads, PayloadOf, PayloadsKept, HeapBlocks.Malloc;
      var total := count * each % U64;
      MallocOutcome(total);
      AlignExact(total);
      EmptyListFails(total);
      ghost var h, m, hdr0 := View(), mem[..], hdr;
      p := Malloc(total);
      if p == NULL {
        KeptByHeaders(h, View(), h.Live(), start, m, hdr0, hdr);
        return;
      }
      SizeOf(Block(p));
      ZeroBytes(p, total);
      SizeOf(Block(p));
      KeptByWrite(h, View(), h.Live(), start, m, hdr0, mem[..], hdr, Block(p));
    }

    /** Size plus header over the first i blocks of the free list. */
    ghost function FreeBytes(i: nat): nat
      requires Valid() && i <= |free|
      reads this
    {
      ListBytes(View().sizes, free[..i])
    }

    lemma StatsRound(i: nat, current: nat, sum: nat)
      requires Valid() && i <= |free| && current == At(free, i) != NULL && sum == FreeBytes(i) % U32
      ensures i < |free| && current in hdr && hdr[current].next == At(free, i + 1)
      ensures (sum + hdr[current].size + HEADER) % U32 == FreeBytes(i + 1) % U32
    {
      hide Tiled, Distinct, LiveUnlinked, Magic, ListBytes;
      ListBytesNext(View().sizes, free, i);
      AddMod(FreeBytes(i), hdr[current].size + HEADER);
    }

    lemma StatsTotals()
      requires Valid()
      ensures FreeBytes(0) == 0 && FreeBytes(|free|) == ListBytes(View().sizes, free) <= size
      ensures SetBytes(View().sizes, Whole(), start, View().Live()) + FreeBytes(|free|) == size
    {
      hide Tiled, LiveUnlinked, Magic, Linked, SetBytes;
      assert free[..|free|] == free;
      UsedPlusFree(View(), Whole());
    }

    lemma EndOfList(i: nat)
      requires Valid() && i <= |free| && At(free, i) == NULL
      ensures i == |free|
    {
    }

    lemma HeadOfList()
      requires Valid()
      ensures freeList == At(free, 0)
    {
    }

    /** heap_stats, which counts in 32 bits: used and free make up the total, and on
        a heap under 4 GiB used is size plus header over the live blocks. */
    method Stats() returns (total: nat, used: nat, freeBytes: nat)
      requires Valid()
      ensures total == size % U32 && freeBytes == FreeBytes(|free|) % U32
      ensures (used + freeBytes) % U32 == total
      ensures size < U32 ==>
        && used + freeBytes == total == size
        && used == SetBytes(View().sizes, Whole(), start, View().Live())
    {
      hide WellFormed, Tiled, Linked, Magic, LiveUnlinked, Sizes, SetBytes, FreeBytes, At;
      StatsTotals();
      total := size % U32;
      var sum := 0;
      var current := freeList;
      ghost var i := 0;
      HeadOfList();
      while current != NULL
        invariant i <= |free| && current == At(free, i)
        invariant sum == FreeBytes(i) % U32
        decreases |free| - i
      {
        StatsRound(i, current, sum);
        sum := (sum + hdr[current].size + HEADER) % U32;
        current := hdr[current].next;
        i := i + 1;
      }
      EndOfList(i);
      freeBytes := sum;
      used := (size - sum) % U32;
      SubtractMod(size, FreeBytes(|free|));
    }
  }
}
