/** small_block_allocator: blocks of whole cache lines are carved from the top page, and freed
    blocks wait in one list for each block size. An address is a number; what the zone allocator
    hands out is a parameter. */
module SmallBlockAllocator {
  import opened Sequences
  import Bits

  // A cache line has 16 bytes and a page 256 lines; a status page has 16 status blocks of one byte
  // for each line of a data page. A status byte is the bucket, 0 to 17, and a flag: 32 for an
  // allocated block, 128 for a freed one, 64 where no block starts. -1 stands for no page.

  /** The struct at the start of a data page. */
  datatype Page = Page(status: nat, prev: int)

  datatype FreeBlock = FreeBlock(address: nat, statusByte: nat)

  function EmptyLists(): seq<seq<FreeBlock>> {
    seq(18, b => [])
  }

  function BucketSizes(): (r: seq<nat>)
    ensures |r| == 18
  {
    [1, 2, 3, 4, 5, 6, 8, 10, 12, 16, 20, 24, 32, 40, 48, 64, 80, 96]
  }

  function Size(b: nat): (r: nat)
    requires b < 18
    ensures 1 <= r <= 96
  {
    BucketSizes()[b]
  }

  /** Up to six lines there is a bucket for every size, and above that four, five and six times each
      power of two. */
  lemma SizeLaw(b: nat)
    requires b < 18
    ensures b < 6 ==> Size(b) == b + 1
    ensures b >= 6 ==> Size(b) == (4 + b % 3) * Bits.Pow2(b / 3 - 1)
  {
    assert Bits.Pow2(1) == 2 && Bits.Pow2(2) == 4 && Bits.Pow2(3) == 8 && Bits.Pow2(4) == 16;
  }

  /** A block is at most a third larger than asked for. */
  lemma LittleIsWasted(lineCount: nat, b: nat)
    requires 0 < lineCount <= 96 && b < 18 && lineCount <= Size(b) && forall i :: 0 <= i < b ==> Size(i) < lineCount
    ensures 3 * Size(b) <= 4 * lineCount
  {
    if b > 0 {
      SizeLaw(b);
      SizeLaw(b - 1);
      assert Size(b - 1) < lineCount;
    }
  }

  /** _find_bucket: the smallest size that is large enough. */
  method FindBucket(lineCount: nat) returns (index: nat, size: nat)
    requires lineCount <= 96
    ensures index < 18 && size == Size(index) && lineCount <= size
    ensures forall i :: 0 <= i < index ==> Size(i) < lineCount
  {
    index := 0;
    assert Size(17) == 96;
    while Size(index) < lineCount
      invariant index < 18 && forall i :: 0 <= i < index ==> Size(i) < lineCount
      decreases 18 - index
    {
      assert index != 17;
      index := index + 1;
    }
    size := Size(index);
  }

  function PageOf(address: nat): nat {
    address / 4096
  }

  function LineOf(address: nat): (r: nat)
    ensures r < 256
  {
    address % 4096 / 16
  }

  // ------------------------------------------------------------------ the parts

  /** The status block of data page number j of the allocator. */
  ghost function StatusBlock(statusPages: seq<nat>, j: nat): nat
    requires j < 16 * |statusPages|
  {
    4096 * statusPages[j / 16] + 256 * (j % 16)
  }

  ghost predicate PageRight(headers: map<nat, Page>, order: seq<nat>, statusPages: seq<nat>, j: nat)
    requires j < |order| && j < 16 * |statusPages|
  {
    && order[j] in headers
    && headers[order[j]] == Page(StatusBlock(statusPages, j), if j == 0 then -1 else order[j - 1])
  }

  /** The data pages, oldest first, are chained from the newest; every sixteen of them share a
      status page. */
  ghost predicate PagesRight(headers: map<nat, Page>, order: seq<nat>, statusPages: seq<nat>) {
    && Distinct(order) && Distinct(statusPages) && (forall p :: p in order ==> p !in statusPages)
    && |statusPages| == (|order| + 15) / 16
    && (forall p :: p in headers ==> p in order)
    && (forall j :: 0 <= j < |order| ==> PageRight(headers, order, statusPages, j))
  }

  /** The block at the address lies in a data page, past its struct, and below the given line if
      it is in the top page. */
  ghost predicate Fits(header: nat, headers: map<nat, Page>, top: int, used: nat, address: nat, b: nat) {
    && b < 18 && address % 16 == 0 && PageOf(address) in headers
    && header <= LineOf(address) && LineOf(address) + Size(b) <= 256
    && (PageOf(address) == top ==> LineOf(address) + Size(b) <= used)
  }

  /** The blocks do not overlap. */
  ghost predicate Disjoint(blocks: map<nat, nat>)
    requires forall a :: a in blocks ==> blocks[a] < 18
  {
    forall a, c :: a in blocks && c in blocks && a < c ==> a + 16 * Size(blocks[a]) <= c
  }

  ghost predicate BlocksRight(header: nat, headers: map<nat, Page>, top: int, used: nat, blocks: map<nat, nat>) {
    (forall a :: a in blocks ==> Fits(header, headers, top, used, a, blocks[a])) && Disjoint(blocks)
  }

  function StatusAt(headers: map<nat, Page>, address: nat): nat
    requires PageOf(address) in headers
  {
    headers[PageOf(address)].status + LineOf(address)
  }

  /** The status byte of a block has its bucket and whether it is allocated or free. */
  ghost predicate ByteRight(status: map<nat, nat>, headers: map<nat, Page>, a: nat, b: nat, isLive: bool) {
    && PageOf(a) in headers && StatusAt(headers, a) in status
    && status[StatusAt(headers, a)] == b + if isLive then 32 else 128
  }

  ghost predicate BytesRight(status: map<nat, nat>, headers: map<nat, Page>, blocks: map<nat, nat>, live: set<nat>) {
    && (forall a :: a in live ==> a in blocks)
    && (forall a :: a in blocks ==> ByteRight(status, headers, a, blocks[a], a in live))
  }

  /** The bytes of the status pages are there to be written. */
  ghost predicate StatusOwned(status: map<nat, nat>, statusPages: seq<nat>) {
    forall a: nat :: a / 4096 in statusPages ==> a in status
  }

  /** Free block f is block number b's own. */
  ghost predicate Waits(headers: map<nat, Page>, blocks: map<nat, nat>, live: set<nat>, b: nat, f: FreeBlock) {
    && f.address in blocks && f.address !in live && blocks[f.address] == b
    && PageOf(f.address) in headers && f.statusByte == StatusAt(headers, f.address)
  }

  /** Every block that is not live waits once, in the list of its own size, and nothing else does. */
  ghost predicate ListsRight(headers: map<nat, Page>, blocks: map<nat, nat>, live: set<nat>, free: seq<seq<FreeBlock>>) {
    && |free| == 18
    && (forall b, k :: 0 <= b < 18 && 0 <= k < |free[b]| ==> Waits(headers, blocks, live, b, free[b][k]))
    && (forall b, j, k :: 0 <= b < 18 && 0 <= j < k < |free[b]| ==> free[b][j].address != free[b][k].address)
    && (forall a :: a in blocks && a !in live && blocks[a] < 18 ==>
          exists k :: 0 <= k < |free[blocks[a]]| && free[blocks[a]][k].address == a)
  }

  lemma BlocksInPages(p: nat, i: nat, q: nat, j: nat)
    requires i < 16 && j < 16 && (p != q || i != j)
    ensures var x, y := 4096 * p + 256 * i, 4096 * q + 256 * j;
      x + 256 <= y || y + 256 <= x
  {
  }

  lemma ByteInPage(p: nat, i: nat, line: nat)
    requires i < 16 && line < 256
    ensures (4096 * p + 256 * i + line) / 4096 == p
  {
  }

  /** Two data pages have status blocks apart from each other. */
  lemma StatusBlocksApart(headers: map<nat, Page>, order: seq<nat>, statusPages: seq<nat>, p: nat, q: nat)
    requires PagesRight(headers, order, statusPages) && p in headers && q in headers && p != q
    ensures headers[p].status + 256 <= headers[q].status || headers[q].status + 256 <= headers[p].status
  {
    var i: nat :| i < |order| && order[i] == p;
    var j: nat :| j < |order| && order[j] == q;
    assert PageRight(headers, order, statusPages, i) && PageRight(headers, order, statusPages, j);
    assert i / 16 == j / 16 && i % 16 == j % 16 ==> i == j;
    assert i / 16 != j / 16 ==> statusPages[i / 16] != statusPages[j / 16];
    BlocksInPages(statusPages[i / 16], i % 16, statusPages[j / 16], j % 16);
  }

  /** Blocks at different addresses have different status bytes. */
  lemma StatusBytesApart(headers: map<nat, Page>, order: seq<nat>, statusPages: seq<nat>, a: nat, c: nat)
    requires PagesRight(headers, order, statusPages) && PageOf(a) in headers && PageOf(c) in headers
    requires a != c && a % 16 == 0 && c % 16 == 0
    ensures StatusAt(headers, a) != StatusAt(headers, c)
  {
    AddressOf(a);
    AddressOf(c);
    hide PagesRight;
    hide PageOf;
    hide LineOf;
    if PageOf(a) != PageOf(c) {
      StatusBlocksApart(headers, order, statusPages, PageOf(a), PageOf(c));
    }
  }

  /** A status block lies in the status page of its sixteen data pages. */
  lemma StatusPageOf(headers: map<nat, Page>, order: seq<nat>, statusPages: seq<nat>, p: nat, line: nat)
    requires PagesRight(headers, order, statusPages) && p in headers && line < 256
    ensures (headers[p].status + line) / 4096 in statusPages
  {
    var j: nat :| j < |order| && order[j] == p;
    assert PageRight(headers, order, statusPages, j);
    ByteInPage(statusPages[j / 16], j % 16, line);
  }

  /** What memset makes of n bytes. */
  function Filled(start: nat, n: nat, v: nat): (r: map<nat, nat>)
    ensures forall a :: a in r <==> start <= a < start + n
    ensures forall a :: a in r ==> r[a] == v
  {
    if n == 0 then map[] else Filled(start, n - 1, v)[start + n - 1 := v]
  }

  /** A further data page, with a status page of its own after every sixteen. */
  lemma PageAdded(headers: map<nat, Page>, order: seq<nat>, statusPages: seq<nat>, after: seq<nat>, p: nat, prev: int)
    requires PagesRight(headers, order, statusPages) && p !in order && p !in after
    requires statusPages <= after && |after| == |order| / 16 + 1 && Distinct(after)
    requires forall q :: q in order ==> q !in after
    requires prev == if order == [] then -1 else order[|order| - 1]
    ensures PagesRight(headers[p := Page(StatusBlock(after, |order|), prev)], order + [p], after)
    ensures p !in headers
  {
    var h, o := headers[p := Page(StatusBlock(after, |order|), prev)], order + [p];
    forall j | 0 <= j < |o|
      ensures PageRight(h, o, after, j)
    {
      if j < |order| {
        assert PageRight(headers, order, statusPages, j) && StatusBlock(after, j) == StatusBlock(statusPages, j);
      }
    }
  }

  /** The byte of a block that is there does not change when a status page is filled. */
  lemma ByteKept(status: map<nat, nat>, headers: map<nat, Page>, order: seq<nat>, statusPages: seq<nat>,
                 p: nat, page: Page, s: nat, a: nat, b: nat, isLive: bool)
    requires ByteRight(status, headers, a, b, isLive) && PagesRight(headers, order, statusPages)
    requires p !in headers && s !in statusPages
    ensures ByteRight(status, headers[p := page], a, b, isLive)
    ensures ByteRight(status + Filled(4096 * s, 4096, 64), headers[p := page], a, b, isLive)
  {
    StatusPageOf(headers, order, statusPages, PageOf(a), LineOf(a));
    hide PagesRight;
    hide PageOf;
    hide LineOf;
    assert StatusAt(headers, a) !in Filled(4096 * s, 4096, 64);
  }

  lemma StatusKept(status: map<nat, nat>, statusPages: seq<nat>, s: nat)
    requires StatusOwned(status, statusPages)
    ensures StatusOwned(status + Filled(4096 * s, 4096, 64), statusPages + [s])
  {
  }

  lemma BytesKept(status: map<nat, nat>, headers: map<nat, Page>, blocks: map<nat, nat>, live: set<nat>,
                  order: seq<nat>, statusPages: seq<nat>, p: nat, page: Page, s: nat)
    requires BytesRight(status, headers, blocks, live) && PagesRight(headers, order, statusPages)
    requires p !in headers && s !in statusPages
    ensures BytesRight(status, headers[p := page], blocks, live)
    ensures BytesRight(status + Filled(4096 * s, 4096, 64), headers[p := page], blocks, live)
  {
    hide PagesRight;
    hide ByteRight;
    forall a | a in blocks
      ensures ByteRight(status, headers[p := page], a, blocks[a], a in live)
      ensures ByteRight(status + Filled(4096 * s, 4096, 64), headers[p := page], a, blocks[a], a in live)
    {
      ByteKept(status, headers, order, statusPages, p, page, s, a, blocks[a], a in live);
    }
  }

  /** A further page does not disturb the blocks there are. */
  lemma BlocksKept(header: nat, headers: map<nat, Page>, top: int, used: nat, blocks: map<nat, nat>, p: nat, page: Page)
    requires BlocksRight(header, headers, top, used, blocks) && p !in headers
    ensures BlocksRight(header, headers[p := page], p, header, blocks)
  {
  }

  lemma ListsKept(headers: map<nat, Page>, blocks: map<nat, nat>, live: set<nat>, free: seq<seq<FreeBlock>>,
                  p: nat, page: Page)
    requires ListsRight(headers, blocks, live, free) && p !in headers
    ensures ListsRight(headers[p := page], blocks, live, free)
  {
    forall b, k | 0 <= b < 18 && 0 <= k < |free[b]|
      ensures Waits(headers[p := page], blocks, live, b, free[b][k])
    {
      assert Waits(headers, blocks, live, b, free[b][k]);
    }
  }

  lemma AddressIs(page: nat, line: nat)
    requires line < 256
    ensures PageOf(4096 * page + 16 * line) == page && LineOf(4096 * page + 16 * line) == line
    ensures (4096 * page + 16 * line) % 16 == 0
  {
  }

  lemma AddressOf(a: nat)
    requires a % 16 == 0
    ensures a == 4096 * PageOf(a) + 16 * LineOf(a)
  {
  }

  /** The lines that the next block of the top page takes are not those of any block. */
  lemma CarvedBlock(header: nat, headers: map<nat, Page>, top: nat, used: nat, blocks: map<nat, nat>, b: nat)
    requires BlocksRight(header, headers, top, used, blocks) && top in headers && header <= used
    requires b < 18 && used + Size(b) <= 256
    ensures PageOf(4096 * top + 16 * used) == top && LineOf(4096 * top + 16 * used) == used
    ensures 4096 * top + 16 * used !in blocks && (4096 * top + 16 * used) % 16 == 0
    ensures BlocksRight(header, headers, top, used + Size(b), blocks[4096 * top + 16 * used := b])
  {
    var address := 4096 * top + 16 * used;
    AddressIs(top, used);
    forall a | a in blocks
      ensures a < address ==> a + 16 * Size(blocks[a]) <= address
      ensures a >= address ==> address + 16 * Size(b) <= a
    {
      assert Fits(header, headers, top, used, a, blocks[a]);
      BlockApart(a, Size(blocks[a]), top, used, Size(b));
    }
    hide Size;
    hide PageOf;
    hide LineOf;
  }

  /** A block of another page, or of the lines already used, is apart from the next lines. */
  lemma BlockApart(a: nat, size: nat, top: nat, used: nat, more: nat)
    requires a % 16 == 0 && LineOf(a) + size <= 256 && used + more <= 256 && size > 0
    requires PageOf(a) == top ==> LineOf(a) + size <= used
    ensures var address := 4096 * top + 16 * used;
      && (a < address ==> a + 16 * size <= address) && (a >= address ==> address + 16 * more <= a)
  {
    AddressOf(a);
    hide PageOf;
    hide LineOf;
  }

  lemma Aligned(header: nat, headers: map<nat, Page>, top: int, used: nat, blocks: map<nat, nat>)
    requires BlocksRight(header, headers, top, used, blocks)
    ensures forall a :: a in blocks ==> a % 16 == 0
  {
    forall a | a in blocks
      ensures a % 16 == 0
    {
      assert Fits(header, headers, top, used, a, blocks[a]);
    }
  }

  lemma StatusAtIs(headers: map<nat, Page>, a: nat)
    requires PageOf(a) in headers
    ensures StatusAt(headers, a) == headers[PageOf(a)].status + LineOf(a)
  {
  }

  lemma CarvedByte(status: map<nat, nat>, headers: map<nat, Page>, order: seq<nat>, statusPages: seq<nat>,
                   blocks: map<nat, nat>, live: set<nat>, a: nat, b: nat)
    requires BytesRight(status, headers, blocks, live) && PagesRight(headers, order, statusPages)
    requires PageOf(a) in headers && a % 16 == 0 && a !in blocks && forall c :: c in blocks ==> c % 16 == 0
    ensures BytesRight(status[StatusAt(headers, a) := b + 32], headers, blocks[a := b], live + {a})
  {
    OtherBytes(headers, order, statusPages, blocks, a);
    hide PagesRight;
    hide StatusAt;
    hide PageOf;
  }

  lemma OtherBytes(headers: map<nat, Page>, order: seq<nat>, statusPages: seq<nat>, blocks: map<nat, nat>, a: nat)
    requires PagesRight(headers, order, statusPages) && PageOf(a) in headers && a % 16 == 0
    requires forall c :: c in blocks ==> c % 16 == 0
    ensures forall c :: c in blocks && c != a && PageOf(c) in headers ==> StatusAt(headers, c) != StatusAt(headers, a)
  {
    forall c | c in blocks && c != a && PageOf(c) in headers
      ensures StatusAt(headers, c) != StatusAt(headers, a)
    {
      StatusBytesApart(headers, order, statusPages, c, a);
    }
  }

  lemma CarvedLists(headers: map<nat, Page>, blocks: map<nat, nat>, live: set<nat>, free: seq<seq<FreeBlock>>,
                    a: nat, b: nat)
    requires ListsRight(headers, blocks, live, free) && a !in blocks
    ensures ListsRight(headers, blocks[a := b], live + {a}, free)
  {
    hide PageOf;
    hide StatusAt;
  }

  /** The status byte of a block is rewritten when it is freed or used again. */
  lemma ByteWritten(status: map<nat, nat>, headers: map<nat, Page>, order: seq<nat>, statusPages: seq<nat>,
                    blocks: map<nat, nat>, live: set<nat>, a: nat, isLive: bool)
    requires BytesRight(status, headers, blocks, live) && PagesRight(headers, order, statusPages)
    requires a in blocks && forall c :: c in blocks ==> c % 16 == 0
    ensures PageOf(a) in headers
    ensures BytesRight(status[StatusAt(headers, a) := blocks[a] + if isLive then 32 else 128], headers,
                       blocks, if isLive then live + {a} else live - {a})
  {
    assert ByteRight(status, headers, a, blocks[a], a in live);
    OtherBytes(headers, order, statusPages, blocks, a);
    var after := status[StatusAt(headers, a) := blocks[a] + if isLive then 32 else 128];
    forall c | c in blocks
      ensures ByteRight(after, headers, c, blocks[c], if c == a then isLive else c in live)
    {
      assert ByteRight(status, headers, c, blocks[c], c in live);
    }
  }

  /** The first block of a list is taken. */
  lemma ListsPopped(headers: map<nat, Page>, blocks: map<nat, nat>, live: set<nat>, free: seq<seq<FreeBlock>>, b: nat)
    requires ListsRight(headers, blocks, live, free) && b < 18 && free[b] != []
    ensures ListsRight(headers, blocks, live + {free[b][0].address}, free[b := free[b][1..]])
  {
    var f, after := free[b][0], free[b := free[b][1..]];
    assert Waits(headers, blocks, live, b, f);
    forall c, k | 0 <= c < 18 && 0 <= k < |after[c]|
      ensures Waits(headers, blocks, live + {f.address}, c, after[c][k])
    {
      assert Waits(headers, blocks, live, c, free[c][if c == b then k + 1 else k]);
    }
    forall a | a in blocks && a !in live + {f.address} && blocks[a] < 18
      ensures exists k :: 0 <= k < |after[blocks[a]]| && after[blocks[a]][k].address == a
    {
      var k :| 0 <= k < |free[blocks[a]]| && free[blocks[a]][k].address == a;
      assert after[blocks[a]][if blocks[a] == b then k - 1 else k].address == a;
    }
  }

  /** A freed block is put in front of the list of its own size. */
  lemma ListsPushed(headers: map<nat, Page>, blocks: map<nat, nat>, live: set<nat>, free: seq<seq<FreeBlock>>, a: nat)
    requires ListsRight(headers, blocks, live, free) && a in live && a in blocks && blocks[a] < 18
    requires PageOf(a) in headers
    ensures ListsRight(headers, blocks, live - {a},
                       free[blocks[a] := [FreeBlock(a, StatusAt(headers, a))] + free[blocks[a]]])
  {
    var b, f := blocks[a], FreeBlock(a, StatusAt(headers, a));
    var after := free[b := [f] + free[b]];
    forall c, k | 0 <= c < 18 && 0 <= k < |after[c]|
      ensures Waits(headers, blocks, live - {a}, c, after[c][k])
      ensures c == b && k > 0 ==> after[c][k].address != a
    {
      if c == b && k > 0 {
        assert after[c][k] == free[c][k - 1] && Waits(headers, blocks, live, c, free[c][k - 1]);
      } else if c != b {
        assert Waits(headers, blocks, live, c, free[c][k]);
      }
    }
    forall d | d in blocks && d !in live - {a} && blocks[d] < 18
      ensures exists k :: 0 <= k < |after[blocks[d]]| && after[blocks[d]][k].address == d
    {
      if d == a {
        assert after[b][0].address == a;
      } else {
        var k :| 0 <= k < |free[blocks[d]]| && free[blocks[d]][k].address == d;
        assert after[blocks[d]][if blocks[d] == b then k + 1 else k].address == d;
      }
    }
  }

  ghost function Rest(s: seq<nat>, k: nat): multiset<nat>
    requires k <= |s|
  {
    multiset(s[k..])
  }

  /** The pages given back when only the k oldest data pages are left. */
  ghost predicate Released(released: seq<nat>, order: seq<nat>, statusPages: seq<nat>, k: nat) {
    && k <= |order| && (k + 15) / 16 <= |statusPages|
    && multiset(released) == Rest(order, k) + Rest(statusPages, (k + 15) / 16)
  }

  /** The data page of rank j: its status page goes with the first of the sixteen. */
  lemma PageOfRank(headers: map<nat, Page>, order: seq<nat>, statusPages: seq<nat>, j: nat)
    requires PagesRight(headers, order, statusPages) && j < |order|
    ensures order[j] in headers && headers[order[j]].prev == if j == 0 then -1 else order[j - 1]
    ensures headers[order[j]].status % 4096 == 0 <==> j % 16 == 0
    ensures j / 16 < |statusPages| && (j % 16 == 0 ==> headers[order[j]].status / 4096 == statusPages[j / 16])
  {
    assert PageRight(headers, order, statusPages, j);
  }

  lemma ReleaseStep(order: seq<nat>, statusPages: seq<nat>, released: seq<nat>, j: nat)
    requires Released(released, order, statusPages, j + 1) && j < |order| && j / 16 < |statusPages|
    ensures j % 16 == 0 ==> Released(released + [statusPages[j / 16]] + [order[j]], order, statusPages, j)
    ensures j % 16 != 0 ==> Released(released + [order[j]], order, statusPages, j)
  {
    hide Rest;
    Dropped(order, j);
    var a, b := Rest(order, j + 1), Rest(statusPages, (j + 16) / 16);
    if j % 16 == 0 {
      Dropped(statusPages, j / 16);
      AddTwo(released, a, b, order[j], statusPages[j / 16]);
    } else {
      AddOne(released, a, b, order[j]);
    }
  }

  lemma AddOne(r: seq<nat>, a: multiset<nat>, b: multiset<nat>, x: nat)
    requires multiset(r) == a + b
    ensures multiset(r + [x]) == (a + multiset{x}) + b
  {
    assert multiset(r + [x]) == multiset(r) + multiset{x};
  }

  lemma AddTwo(r: seq<nat>, a: multiset<nat>, b: multiset<nat>, x: nat, y: nat)
    requires multiset(r) == a + b
    ensures multiset(r + [y] + [x]) == (a + multiset{x}) + (b + multiset{y})
  {
    assert multiset(r + [y]) == multiset(r) + multiset{y};
    assert multiset(r + [y]) == a + (b + multiset{y});
    AddOne(r + [y], a, b + multiset{y}, x);
  }

  lemma Dropped(s: seq<nat>, j: nat)
    requires j < |s|
    ensures Rest(s, j) == Rest(s, j + 1) + multiset{s[j]}
  {
    assert s[j..] == [s[j]] + s[j + 1..];
  }

  /** Every page is given back, and none twice. */
  lemma EachOnce(headers: map<nat, Page>, a: seq<nat>, b: seq<nat>, r: seq<nat>)
    requires PagesRight(headers, a, b) && Released(r, a, b, 0)
    ensures Distinct(r) && forall p :: p in r <==> p in a || p in b
  {
    assert a[0..] == a && b[0..] == b;
    forall p
      ensures p in r <==> p in a || p in b
    {
      assert p in r <==> p in multiset(r);
    }
    forall i, j | 0 <= i < j < |r|
      ensures r[i] != r[j]
    {
      if r[i] == r[j] {
        Twice(r, i, j);
        AtMostOnce(a, r[i]);
        AtMostOnce(b, r[i]);
      }
    }
  }

  lemma Twice(s: seq<nat>, i: nat, j: nat)
    requires i < j < |s| && s[i] == s[j]
    ensures multiset(s)[s[i]] >= 2
  {
    assert s == s[..j] + s[j..] && s[i] in s[..j] && s[j] in s[j..];
    assert multiset(s) == multiset(s[..j]) + multiset(s[j..]);
  }

  lemma {:induction false} AtMostOnce(s: seq<nat>, p: nat)
    requires Distinct(s)
    ensures multiset(s)[p] == if p in s then 1 else 0
  {
    if s != [] {
      AtMostOnce(s[1..], p);
      assert s == [s[0]] + s[1..];
    }
  }

  /** The top page and the next status block. */
  ghost predicate TopRight(header: nat, top: int, used: nat, order: seq<nat>, statusPages: seq<nat>,
                           statusBlock: nat, statusUsed: nat) {
    && 1 <= header <= 160 && used <= 256
    && (order == [] ==>
          top == -1 && used == 256 && statusUsed == 16 && statusPages == [])
    && (order != [] ==>
          && top == order[|order| - 1] && header <= used
          && statusPages != [] && statusUsed == (|order| - 1) % 16 + 1
          && statusBlock == 4096 * statusPages[|statusPages| - 1] + 256 * statusUsed)
  }

  /** The parts of an allocator that has no pages. */
  lemma NothingThere(header: nat)
    ensures 1 <= header <= 160 ==> TopRight(header, -1, 256, [], [], 0, 16)
    ensures PagesRight(map[], [], []) && BlocksRight(header, map[], -1, 256, map[]) && StatusOwned(map[], [])
    ensures BytesRight(map[], map[], map[], {}) && ListsRight(map[], map[], {}, EmptyLists())
  {
  }

  /** A further page, with the first status block that is not in use. */
  lemma PageJoins(header: nat, headers: map<nat, Page>, order: seq<nat>, statusPages: seq<nat>, after: seq<nat>,
                  status: map<nat, nat>, bytes: map<nat, nat>, blocks: map<nat, nat>, live: set<nat>,
                  free: seq<seq<FreeBlock>>, top: int, used: nat, p: nat, s: int)
    requires PagesRight(headers, order, statusPages) && BlocksRight(header, headers, top, used, blocks)
    requires BytesRight(status, headers, blocks, live) && StatusOwned(status, statusPages)
    requires ListsRight(headers, blocks, live, free)
    requires p !in order && p !in statusPages && s !in order && s !in statusPages && s != p
    requires if |order| % 16 == 0
             then s >= 0 && after == statusPages + [s] && bytes == status + Filled(4096 * s, 4096, 64)
             else after == statusPages && bytes == status
    requires |order| / 16 + 1 == |after| && top == if order == [] then -1 else order[|order| - 1]
    ensures p !in headers
    ensures var h := headers[p := Page(StatusBlock(after, |order|), top)];
      && PagesRight(h, order + [p], after) && BlocksRight(header, h, p, header, blocks)
      && BytesRight(bytes, h, blocks, live) && StatusOwned(bytes, after) && ListsRight(h, blocks, live, free)
  {
    hide BlocksRight;
    hide BytesRight;
    hide ListsRight;
    hide StatusOwned;
    hide PageRight;
    hide Distinct;
    hide Filled;
    hide StatusBlock;
    if |order| % 16 == 0 {
      var sn: nat := s;
      DistinctAppend(statusPages, sn);
      StatusKept(status, statusPages, s);
    }
    PageAdded(headers, order, statusPages, after, p, top);
    var page := Page(StatusBlock(after, |order|), top);
    BytesKept(status, headers, blocks, live, order, statusPages, p, page, if s in after then s else p);
    BlocksKept(header, headers, top, used, blocks, p, page);
    ListsKept(headers, blocks, live, free, p, page);
  }

  lemma TopJoins(header: nat, order: seq<nat>, after: seq<nat>, p: nat, statusBlock: nat, statusUsed: nat)
    requires 1 <= header <= 160 && |order| / 16 + 1 == |after|
    requires statusBlock == StatusBlock(after, |order|) + 256 && statusUsed == |order| % 16 + 1
    ensures TopRight(header, p, header, order + [p], after, statusBlock, statusUsed)
  {
  }

  // -------------------------------------------------------------- the allocator

  class Allocator {
    /** The cache lines that the struct of a page covers. */
    const header: nat
    var headers: map<nat, Page>
    var status: map<nat, nat>
    var topPage: int
    var linesUsed: nat
    var statusBlock: nat
    var statusBlocksUsed: nat
    var freeBuckets: seq<seq<FreeBlock>>
    ghost var order: seq<nat>
    ghost var statusPages: seq<nat>
    ghost var blocks: map<nat, nat>
    ghost var live: set<nat>

    ghost predicate Valid()
      reads this
    {
      && TopRight(header, topPage, linesUsed, order, statusPages, statusBlock, statusBlocksUsed)
      && PagesRight(headers, order, statusPages)
      && BlocksRight(header, headers, topPage, linesUsed, blocks)
      && BytesRight(status, headers, blocks, live) && StatusOwned(status, statusPages)
      && ListsRight(headers, blocks, live, freeBuckets)
    }

    constructor (header: nat)
      requires 1 <= header <= 160
      ensures Valid() && live == {} && order == [] && statusPages == []
    {
      this.header := header;
      headers, status := map[], map[];
      topPage, linesUsed, statusBlock, statusBlocksUsed := -1, 256, 0, 16;
      freeBuckets := EmptyLists();
      order, statusPages, blocks, live := [], [], map[], {};
    }

    /** What a failed request for a status page leaves: its blocks count as unused, and the page is null. */
    ghost predicate Stranded()
      reads this
    {
      statusBlock == 0 && statusBlocksUsed == 0
    }

    /** A status block for a further data page, from a page of its own after every sixteen; -1 when the
        zone allocator has no such page. */
    method TakeStatusBlock(newStatusPage: int) returns (block: int)
      requires newStatusPage >= -1
      requires Stranded() || (|statusPages| == (|order| + 15) / 16
                 && TopRight(header, topPage, linesUsed, order, statusPages, statusBlock, statusBlocksUsed))
      modifies this`status, this`statusBlock, this`statusBlocksUsed, this`statusPages
      ensures block == -1 <==> !old(Stranded()) && |order| % 16 == 0 && newStatusPage == -1
      ensures block == -1 ==> Stranded() && statusPages == old(statusPages) && status == old(status)
      ensures block >= -1
      ensures old(Stranded()) ==> block == 0 && statusPages == old(statusPages) && status == old(status)
      ensures block >= 0 && !old(Stranded()) ==>
        && statusPages == (if |order| % 16 == 0 then old(statusPages) + [newStatusPage] else old(statusPages))
        && status == (if |order| % 16 == 0 then old(status) + Filled(4096 * newStatusPage, 4096, 64) else old(status))
        && |order| / 16 + 1 == |statusPages| && block == StatusBlock(statusPages, |order|)
        && statusBlock == block + 256 && statusBlocksUsed == |order| % 16 + 1
    {
      if statusBlocksUsed == 16 {
        statusBlocksUsed := 0;
        if newStatusPage == -1 {
          statusBlock := 0;
          return -1;
        }
        statusBlock := 4096 * newStatusPage;
        status := status + Filled(4096 * newStatusPage, 4096, 64);
        statusPages := statusPages + [newStatusPage];
      }
      block := statusBlock;
      statusBlock := statusBlock + 256;
      statusBlocksUsed := statusBlocksUsed + 1;
    }

    /** _alloc_new_top_page, with the two pages that the zone allocator would give, -1 for none. When
        there is a data page but no status page for it, the allocator is left stranded, and the next
        data page gets its status block at address 0. */
    method AllocNewTopPage(newPage: int, newStatusPage: int) returns (ok: bool)
      requires Valid() || Stranded()
      requires newPage >= -1 && newStatusPage >= -1 && (newPage == newStatusPage ==> newPage == -1)
      requires newPage !in order && newPage !in statusPages && newStatusPage !in order && newStatusPage !in statusPages
      modifies this`headers, this`status, this`topPage, this`linesUsed, this`statusBlock, this`statusBlocksUsed,
        this`order, this`statusPages
      ensures old(Valid()) ==> (ok <==> newPage != -1 && (|old(order)| % 16 != 0 || newStatusPage != -1))
      ensures old(Valid()) && ok ==>
        && Valid() && topPage == newPage && linesUsed == header && newPage !in old(headers)
        && order == old(order) + [newPage]
        && statusPages == if |old(order)| % 16 == 0 then old(statusPages) + [newStatusPage] else old(statusPages)
      ensures !ok ==> headers == old(headers) && status == old(status) && topPage == old(topPage)
      ensures !ok ==> linesUsed == old(linesUsed) && order == old(order) && statusPages == old(statusPages)
      ensures !ok && newPage == -1 ==> Valid() == old(Valid()) && Stranded() == old(Stranded())
      ensures !ok && newPage != -1 ==> Stranded() && !Valid()
      ensures old(Stranded()) && newPage != -1 ==> ok && headers == old(headers)[newPage := Page(0, old(topPage))]
    {
      hide TopRight;
      hide PagesRight;
      hide BlocksRight;
      hide BytesRight;
      hide StatusOwned;
      hide ListsRight;
      hide Distinct;
      hide Filled;
      hide StatusBlock;
      if newPage == -1 {
        return false;
      }
      ghost var stranded := Stranded();
      ghost var sp, bytes := statusPages, status;
      NotBoth();
      var block := TakeStatusBlock(newStatusPage);
      if block == -1 {
        NotBoth();
        return false;
      }
      if !stranded {
        PageJoins(header, headers, order, sp, statusPages, bytes, status, blocks, live, freeBuckets, topPage, linesUsed,
                  newPage, newStatusPage);
        TopJoins(header, order, statusPages, newPage, statusBlock, statusBlocksUsed);
      }
      headers := headers[newPage := Page(block, topPage)];
      topPage := newPage;
      order := order + [newPage];
      linesUsed := header;
      ok := true;
    }

    lemma NotBoth()
      ensures Valid() ==> !Stranded()
      ensures Valid() ==> |statusPages| == (|order| + 15) / 16
      ensures Valid() ==> TopRight(header, topPage, linesUsed, order, statusPages, statusBlock, statusBlocksUsed)
      ensures Valid() ==> 1 <= header <= 160 && topPage == if order == [] then -1 else order[|order| - 1]
    {
    }

    /** A block of bucket b from the top page. */
    method Carve(b: nat) returns (address: nat)
      requires Valid() && b < 18 && order != [] && linesUsed + Size(b) <= 256
      modifies this`status, this`linesUsed, this`blocks, this`live
      ensures Valid() && address !in old(blocks) && blocks == old(blocks)[address := b] && live == old(live) + {address}
    {
      hide *;
      Carvable(b);
      TopInHeaders();
      ValidIs();
      address := 4096 * topPage + 16 * linesUsed;
      status := status[headers[topPage].status + linesUsed := b + 32];
      linesUsed := linesUsed + Size(b);
      blocks := blocks[address := b];
      live := live + {address};
      ValidIs();
    }

    /** What carving a block does to the parts. */
    lemma Carvable(b: nat)
      requires Valid() && b < 18 && order != [] && linesUsed + Size(b) <= 256
      ensures topPage >= 0 && topPage in headers && headers[topPage].status + linesUsed in status
      ensures TopRight(header, topPage, linesUsed + Size(b), order, statusPages, statusBlock, statusBlocksUsed)
      ensures var a, bytes := 4096 * topPage + 16 * linesUsed, status[headers[topPage].status + linesUsed := b + 32];
        && a !in blocks && BlocksRight(header, headers, topPage, linesUsed + Size(b), blocks[a := b])
        && BytesRight(bytes, headers, blocks[a := b], live + {a}) && StatusOwned(bytes, statusPages)
        && ListsRight(headers, blocks[a := b], live + {a}, freeBuckets)
    {
      hide PagesRight;
      hide BytesRight;
      hide BlocksRight;
      hide ListsRight;
      hide Size;
      hide PageOf;
      hide LineOf;
      TopInHeaders();
      StatusPageOf(headers, order, statusPages, topPage, linesUsed);
      CarvedBlock(header, headers, topPage, linesUsed, blocks, b);
      Aligned(header, headers, topPage, linesUsed, blocks);
      CarvedByte(status, headers, order, statusPages, blocks, live, 4096 * topPage + 16 * linesUsed, b);
      CarvedLists(headers, blocks, live, freeBuckets, 4096 * topPage + 16 * linesUsed, b);
    }

    lemma TopInHeaders()
      requires Valid() && order != []
      ensures topPage >= 0 && topPage in headers && linesUsed <= 256
    {
      assert PageRight(headers, order, statusPages, |order| - 1);
    }

    lemma ValidIs()
      ensures Valid() <==>
        && TopRight(header, topPage, linesUsed, order, statusPages, statusBlock, statusBlocksUsed)
        && PagesRight(headers, order, statusPages)
        && BlocksRight(header, headers, topPage, linesUsed, blocks)
        && BytesRight(status, headers, blocks, live) && StatusOwned(status, statusPages)
        && ListsRight(headers, blocks, live, freeBuckets)
    {
    }

    /** What taking the first free block of a list does to the parts. */
    lemma Reusable(b: nat)
      requires Valid() && b < 18 && |freeBuckets| == 18 && freeBuckets[b] != []
      ensures var f := freeBuckets[b][0];
        && f.address in blocks && f.address !in live && blocks[f.address] == b
        && f.statusByte in status && status[f.statusByte] == b + 128
        && BytesRight(status[f.statusByte := b + 32], headers, blocks, live + {f.address})
        && ListsRight(headers, blocks, live + {f.address}, freeBuckets[b := freeBuckets[b][1..]])
        && StatusOwned(status[f.statusByte := b + 32], statusPages)
    {
      var f := freeBuckets[b][0];
      assert Waits(headers, blocks, live, b, f);
      assert ByteRight(status, headers, f.address, b, false);
      Aligned(header, headers, topPage, linesUsed, blocks);
      ByteWritten(status, headers, order, statusPages, blocks, live, f.address, true);
      ListsPopped(headers, blocks, live, freeBuckets, b);
    }

    /** What freeing a block does to the parts. */
    lemma Freeable(a: nat)
      requires Valid() && a in live
      ensures a in blocks && blocks[a] < 18 == |freeBuckets| && PageOf(a) in headers
      ensures var b, byte := blocks[a], StatusAt(headers, a);
        && byte in status && status[byte] == b + 32
        && BytesRight(status[byte := b + 128], headers, blocks, live - {a})
        && ListsRight(headers, blocks, live - {a}, freeBuckets[b := [FreeBlock(a, byte)] + freeBuckets[b]])
        && StatusOwned(status[byte := b + 128], statusPages)
    {
      assert Fits(header, headers, topPage, linesUsed, a, blocks[a]);
      assert ByteRight(status, headers, a, blocks[a], true);
      Aligned(header, headers, topPage, linesUsed, blocks);
      ByteWritten(status, headers, order, statusPages, blocks, live, a, false);
      ListsPushed(headers, blocks, live, freeBuckets, a);
    }

    /** A block of bucket b that was freed, the last one first. */
    method Reuse(b: nat) returns (address: nat)
      requires Valid() && b < 18 == |freeBuckets| && freeBuckets[b] != []
      modifies this`status, this`freeBuckets, this`live
      ensures Valid() && address == old(freeBuckets)[b][0].address && address !in old(live)
      ensures address in blocks && blocks[address] == b && live == old(live) + {address}
      ensures freeBuckets == old(freeBuckets)[b := old(freeBuckets)[b][1..]]
    {
      hide *;
      Reusable(b);
      ValidIs();
      var block := freeBuckets[b][0];
      address := block.address;
      freeBuckets := freeBuckets[b := freeBuckets[b][1..]];
      var byte := status[block.statusByte];
      assert byte / 128 % 2 == 1;
      status := status[block.statusByte := byte % 32 + 32];
      live := live + {address};
      ValidIs();
    }

    lemma ListCount()
      requires Valid()
      ensures |freeBuckets| == 18 && linesUsed <= 256 && header <= 160
      ensures order == [] ==> linesUsed == 256
    {
    }

    /** allocate, with the two pages that the zone allocator would give, -1 for none; b is the bucket of
        the size. Too large a size gets nothing, and neither does one that needs a page there is none for. */
    method Allocate(size: nat, newPage: int, newStatusPage: int) returns (address: int, ghost b: nat)
      requires Valid() && newPage >= -1 && newStatusPage >= -1 && (newPage == newStatusPage ==> newPage == -1)
      requires newPage !in order && newPage !in statusPages && newStatusPage !in order && newStatusPage !in statusPages
      modifies this
      ensures size <= 1536 ==> b < 18 && size <= 16 * Size(b) && forall i :: 0 <= i < b ==> 16 * Size(i) < size
      ensures |old(freeBuckets)| == 18
      ensures address == -1 <==>
        size > 1536 || (old(freeBuckets)[b] == [] && old(linesUsed) + Size(b) > 256
                        && (newPage == -1 || (|old(order)| % 16 == 0 && newStatusPage == -1)))
      ensures address == -1 ==> live == old(live) && blocks == old(blocks) && freeBuckets == old(freeBuckets)
      ensures address == -1 ==> order == old(order)
      ensures if address == -1 && size <= 1536 && newPage != -1 then Stranded() && !Valid() else Valid()
      ensures address != -1 ==>
        && address >= 0 && address !in old(live) && live == old(live) + {address}
        && address in blocks && blocks[address] == b
      ensures forall a :: a in old(blocks) ==> a in blocks && blocks[a] == old(blocks)[a]
      ensures address != -1 && old(freeBuckets)[b] != [] ==>
        && address == old(freeBuckets)[b][0].address && order == old(order)
        && freeBuckets == old(freeBuckets)[b := old(freeBuckets)[b][1..]]
      ensures address != -1 && old(freeBuckets)[b] == [] ==>
        && address !in old(blocks) && freeBuckets == old(freeBuckets)
        && order == if old(linesUsed) + Size(b) > 256 then old(order) + [newPage] else old(order)
    {
      hide *;
      LiveAreBlocks();
      ListCount();
      b := 0;
      if size > 1536 {
        return -1, 0;
      }
      var lineCount := (size + 15) / 16;
      var bucket, lines := FindBucket(lineCount);
      b := bucket;
      assert forall i :: 0 <= i < b ==> 16 * Size(i) < size;
      if freeBuckets[bucket] != [] {
        address := Reuse(bucket);
      } else {
        if linesUsed + lines > 256 {
          var ok := AllocNewTopPage(newPage, newStatusPage);
          if !ok {
            return -1, b;
          }
          ListCount();
        }
        address := Carve(bucket);
      }
      LiveAreBlocks();
    }

    lemma LiveAreBlocks()
      requires Valid()
      ensures forall a :: a in live ==> a in blocks
    {
    }

    /** deallocate: the block goes to the front of the list of the bucket it came from. */
    method Deallocate(address: nat)
      requires Valid() && address in live
      modifies this`status, this`freeBuckets, this`live
      ensures Valid() && live == old(live) - {address} && address in blocks && PageOf(address) in headers
      ensures var b := blocks[address];
        b < |old(freeBuckets)| && freeBuckets ==
          old(freeBuckets)[b := [FreeBlock(address, StatusAt(headers, address))] + old(freeBuckets)[b]]
    {
      hide *;
      Freeable(address);
      StatusAtIs(headers, address);
      ValidIs();
      var page := headers[PageOf(address)];
      var byte := page.status + LineOf(address);
      var flags := status[byte];
      assert flags / 32 % 2 == 1;
      var b := flags % 32;
      freeBuckets := freeBuckets[b := [FreeBlock(address, byte)] + freeBuckets[b]];
      status := status[byte := b + 128];
      live := live - {address};
      ValidIs();
    }

    /** Where a live block lies: on a 16-byte boundary, behind the page struct, and inside its page. */
    lemma LiveBlock(a: nat)
      requires Valid() && a in live
      ensures a in blocks && blocks[a] < 18 && a % 16 == 0 && a / 4096 in order
      ensures 16 * header <= a % 4096 && a % 4096 + 16 * Size(blocks[a]) <= 4096
    {
      assert Fits(header, headers, topPage, linesUsed, a, blocks[a]);
      AddressOf(a);
    }

    /** Two live blocks have no byte in common. */
    lemma LiveBlocks(a: nat, c: nat)
      requires Valid() && a in live && c in live && a != c
      ensures a in blocks && blocks[a] < 18 && c in blocks && blocks[c] < 18
      ensures a + 16 * Size(blocks[a]) <= c || c + 16 * Size(blocks[c]) <= a
    {
      LiveBlock(a);
      LiveBlock(c);
    }

    /** _destroy: what is given back to the zone allocator. */
    method Destroy() returns (released: seq<nat>)
      requires Valid()
      modifies this`topPage
      ensures Distinct(released) && forall p :: p in released <==> p in order || p in statusPages
    {
      hide *;
      released := [];
      ghost var k: nat := |order|;
      ReleaseStarts();
      while topPage != -1
        invariant k <= |order| && topPage == (if k == 0 then -1 else order[k - 1])
        invariant PagesRight(headers, order, statusPages) && Released(released, order, statusPages, k)
        decreases k
      {
        PageOfRank(headers, order, statusPages, k - 1);
        ReleaseStep(order, statusPages, released, k - 1);
        k := k - 1;
        var page := headers[topPage];
        if page.status % 4096 == 0 {
          released := released + [page.status / 4096];
        }
        released := released + [topPage];
        topPage := page.prev;
      }
      EachOnce(headers, order, statusPages, released);
    }

    lemma ReleaseStarts()
      requires Valid()
      ensures topPage == (if order == [] then -1 else order[|order| - 1])
      ensures PagesRight(headers, order, statusPages) && Released([], order, statusPages, |order|)
    {
    }

    /** clear. */
    method Clear() returns (released: seq<nat>)
      requires Valid()
      modifies this
      ensures Valid() && live == {} && blocks == map[] && order == [] && statusPages == []
      ensures Distinct(released) && forall p :: p in released <==> p in old(order) || p in old(statusPages)
    {
      hide *;
      HeaderIs();
      released := Destroy();
      NothingThere(header);
      headers, status := map[], map[];
      topPage, linesUsed, statusBlock, statusBlocksUsed := -1, 256, 0, 16;
      freeBuckets := EmptyLists();
      order, statusPages, blocks, live := [], [], map[], {};
      ValidIs();
    }

    lemma HeaderIs()
      requires Valid()
      ensures 1 <= header <= 160
    {
    }
  }
}
