/** `MemoryArena`: chunks are cut off pages by moving a cursor.
 */
module CodeArena {
  import opened Arithmetic

  datatype Permission = ReadWrite | ReadExecute

  datatype Chunk = Chunk(address: int, length: int)

  /** `PageChunk`: the page, its cursor, and the chunks cut off so far, oldest first. */
  datatype Page = Page(base: int, length: int, cursor: int, permission: Permission, chunks: seq<Chunk>)

  /** The remaining space is enough for the new chunk. */
  predicate HasRoom(p: Page, size: int, permission: Permission) {
    p.permission == permission && p.cursor + size < p.base + p.length
  }

  function Cut(p: Page, size: int): Page {
    p.(cursor := p.cursor + size, chunks := p.chunks + [Chunk(p.cursor, size)])
  }

  /** Position of the first page with room, or the number of pages. */
  function FirstRoom(pages: seq<Page>, size: int, permission: Permission): (i: nat)
    ensures i <= |pages| && (i < |pages| ==> HasRoom(pages[i], size, permission))
    ensures forall k :: 0 <= k < i ==> !HasRoom(pages[k], size, permission)
  {
    if pages == [] || HasRoom(pages[0], size, permission) then 0 else 1 + FirstRoom(pages[1..], size, permission)
  }

  /** A request, with the page that the system would provide for it (base 0 for none). */
  datatype Request = Request(size: int, permission: Permission, base: int, length: int)

  function NewPage(q: Request): Page { Page(q.base, q.length, q.base, q.permission, []) }

  /** `AllocateChunk` refuses only when it needs a page and gets none. */
  predicate Refused(pages: seq<Page>, q: Request) {
    FirstRoom(pages, q.size, q.permission) == |pages| && q.base == 0
  }

  function Step(pages: seq<Page>, q: Request): seq<Page> {
    var i := FirstRoom(pages, q.size, q.permission);
    if i < |pages| then pages[i := Cut(pages[i], q.size)]
    else if q.base == 0 then pages
    else pages + [Cut(NewPage(q), q.size)]
  }

  /** The chunk that a request gets. */
  function Given(pages: seq<Page>, q: Request): Chunk
    requires !Refused(pages, q)
  {
    var i := FirstRoom(pages, q.size, q.permission);
    Chunk(if i < |pages| then pages[i].cursor else q.base, q.size)
  }

  function Run(pages: seq<Page>, requests: seq<Request>): seq<Page>
    decreases |requests|
  {
    if requests == [] then pages else Run(Step(pages, requests[0]), requests[1..])
  }

  // ---------------------------------------------------------------- the invariant

  function Sum(chunks: seq<Chunk>): int {
    if chunks == [] then 0 else Sum(chunks[..|chunks| - 1]) + chunks[|chunks| - 1].length
  }

  /** The chunks lie one after the other from the base to the cursor, within the page. */
  ghost predicate PageOk(p: Page) {
    && p.cursor == p.base + Sum(p.chunks) <= p.base + p.length
    && forall k :: 0 <= k < |p.chunks| ==>
         p.chunks[k].length >= 1 && p.chunks[k].address == p.base + Sum(p.chunks[..k])
  }

  predicate Disjoint(a: int, m: int, b: int, n: int) { a + m <= b || b + n <= a }

  ghost predicate Inv(pages: seq<Page>) {
    && (forall i :: 0 <= i < |pages| ==> PageOk(pages[i]))
    && (forall i, j :: 0 <= i < j < |pages| ==> Disjoint(pages[i].base, pages[i].length, pages[j].base, pages[j].length))
  }

  /** A request of one byte to one page, for which the system provides a page that is its own. */
  ghost predicate Allowed(pages: seq<Page>, q: Request) {
    && 1 <= q.size <= q.length
    && forall i :: 0 <= i < |pages| ==> Disjoint(pages[i].base, pages[i].length, q.base, q.length)
  }

  ghost predicate AllAllowed(pages: seq<Page>, requests: seq<Request>)
    decreases |requests|
  {
    requests != [] ==> Allowed(pages, requests[0]) && AllAllowed(Step(pages, requests[0]), requests[1..])
  }

  lemma CutOk(p: Page, size: int)
    requires PageOk(p) && size >= 1 && p.cursor + size <= p.base + p.length
    ensures PageOk(Cut(p, size))
  {
    var c := Cut(p, size).chunks;
    assert c[..|c| - 1] == p.chunks;
    forall k | 0 <= k < |c| ensures c[k].length >= 1 && c[k].address == p.base + Sum(c[..k]) {
      if k < |p.chunks| { assert c[..k] == p.chunks[..k]; }
    }
  }

  lemma StepKeepsInv(pages: seq<Page>, q: Request)
    requires Inv(pages) && Allowed(pages, q)
    ensures Inv(Step(pages, q))
  {
    hide PageOk, Cut;
    var i := FirstRoom(pages, q.size, q.permission);
    if i < |pages| {
      CutOk(pages[i], q.size);
      CutKeepsPlace(pages[i], q.size);
    } else {
      NewPageOk(q);
      CutKeepsPlace(NewPage(q), q.size);
    }
  }

  lemma CutKeepsPlace(p: Page, size: int)
    ensures var r := Cut(p, size); r.base == p.base && r.length == p.length && r.permission == p.permission
  {
  }

  lemma NewPageOk(q: Request)
    requires 1 <= q.size <= q.length
    ensures PageOk(Cut(NewPage(q), q.size))
  {
    CutOk(NewPage(q), q.size);
  }

  lemma {:induction false} RunKeepsInv(pages: seq<Page>, requests: seq<Request>)
    requires Inv(pages) && AllAllowed(pages, requests)
    ensures Inv(Run(pages, requests))
    decreases |requests|
  {
    if requests != [] {
      StepKeepsInv(pages, requests[0]);
      RunKeepsInv(Step(pages, requests[0]), requests[1..]);
    }
  }

  // ---------------------------------------------------------------- the theorems

  lemma {:induction false} SumGrows(chunks: seq<Chunk>, j: nat, k: nat)
    requires j <= k <= |chunks| && forall i :: 0 <= i < |chunks| ==> chunks[i].length >= 1
    ensures Sum(chunks[..j]) <= Sum(chunks[..k])
    ensures j < k ==> Sum(chunks[..j]) + chunks[j].length <= Sum(chunks[..k])
    decreases k
  {
    if j < k {
      assert chunks[..k][..k - 1] == chunks[..k - 1];
      SumGrows(chunks, j, k - 1);
    }
  }

  /** Every chunk lies in its page, and two chunks of a page do not overlap. */
  lemma ChunksInPage(p: Page, j: nat, k: nat)
    requires PageOk(p) && j < |p.chunks| && k < |p.chunks|
    ensures p.base <= p.chunks[j].address && p.chunks[j].address + p.chunks[j].length <= p.base + p.length
    ensures j != k ==> Disjoint(p.chunks[j].address, p.chunks[j].length, p.chunks[k].address, p.chunks[k].length)
  {
    assert p.chunks[..|p.chunks|] == p.chunks;
    SumGrows(p.chunks, 0, j);
    SumGrows(p.chunks, j, |p.chunks|);
    if j < k { SumGrows(p.chunks, j, k); }
    if k < j { SumGrows(p.chunks, k, j); }
  }

  /** Over every run from an empty arena: every chunk ever given lies inside its page, any
      two do not overlap, and each cursor is its page's base plus the lengths of its chunks. */
  lemma ChunksDisjoint(requests: seq<Request>, i: nat, j: nat, i': nat, j': nat)
    requires AllAllowed([], requests)
    requires var pages := Run([], requests); i < |pages| && j < |pages[i].chunks| && i' < |pages| && j' < |pages[i'].chunks|
    ensures var pages := Run([], requests);
            var p, c, c' := pages[i], pages[i].chunks[j], pages[i'].chunks[j'];
            && p.cursor == p.base + Sum(p.chunks)
            && p.base <= c.address && c.address + c.length <= p.base + p.length
            && ((i, j) != (i', j') ==> Disjoint(c.address, c.length, c'.address, c'.length))
  {
    RunKeepsInv([], requests);
    var pages := Run([], requests);
    hide Run, AllAllowed;
    assert PageOk(pages[i]) && PageOk(pages[i']);
    if i == i' {
      ChunksInPage(pages[i], j, j');
    } else {
      ChunksInPage(pages[i], j, j);
      ChunksInPage(pages[i'], j', j');
      if i < i' {
        assert Disjoint(pages[i].base, pages[i].length, pages[i'].base, pages[i'].length);
      } else {
        assert Disjoint(pages[i'].base, pages[i'].length, pages[i].base, pages[i].length);
      }
      hide PageOk;
    }
  }

  /** The chunk that a request gets is recorded in a page of the permission asked for, and
      the chunks recorded before stay where they were. */
  lemma GivenIsRecorded(pages: seq<Page>, q: Request) returns (i: nat)
    requires !Refused(pages, q)
    ensures var after := Step(pages, q);
            && i < |after| && after[i].permission == q.permission
            && after[i].chunks == (if i < |pages| then pages[i].chunks else []) + [Given(pages, q)]
            && |pages| <= |after|
            && forall k :: 0 <= k < |pages| && k != i ==> after[k] == pages[k]
  {
    i := FirstRoom(pages, q.size, q.permission);
  }

  /** The chunks recorded in the page leave more than `size` bytes of it free. */
  ghost predicate LeavesFree(p: Page, size: int, permission: Permission) {
    p.permission == permission && Sum(p.chunks) + size < p.length
  }

  ghost predicate FirstFree(pages: seq<Page>, i: int, size: int, permission: Permission) {
    0 <= i < |pages| && LeavesFree(pages[i], size, permission) && forall k :: 0 <= k < i ==> !LeavesFree(pages[k], size, permission)
  }

  /** What serving `q` from page `i`, right behind the chunks recorded there, leaves. */
  ghost predicate ServedFrom(pages: seq<Page>, q: Request, i: int, chunk: Chunk, after: seq<Page>) {
    && FirstFree(pages, i, q.size, q.permission) && chunk == Chunk(pages[i].base + Sum(pages[i].chunks), q.size)
    && |after| == |pages| && after[i].chunks == pages[i].chunks + [chunk]
    && forall k :: 0 <= k < |pages| && k != i ==> after[k] == pages[k]
  }

  lemma RoomIsFree(pages: seq<Page>, q: Request, i: nat)
    requires Inv(pages) && i == FirstRoom(pages, q.size, q.permission)
    ensures i < |pages| ==> FirstFree(pages, i, q.size, q.permission)
    ensures i == |pages| ==> forall k :: !FirstFree(pages, k, q.size, q.permission)
  {
    hide Sum;
    forall k | 0 <= k < |pages| ensures LeavesFree(pages[k], q.size, q.permission) <==> HasRoom(pages[k], q.size, q.permission) {
      assert PageOk(pages[k]);
    }
    hide LeavesFree, HasRoom, PageOk;
  }

  /** Over every run, a further request is served from the first page of its permission whose recorded
      chunks leave more than its size free, right behind them; a page is mapped only
      when there is none, and the request is refused only when that fails. */
  lemma ServedExactly(requests: seq<Request>, q: Request)
    requires AllAllowed([], requests)
    ensures var pages := Run([], requests);
            var after := Step(pages, q);
            if exists i :: FirstFree(pages, i, q.size, q.permission) then
              !Refused(pages, q) && exists i :: ServedFrom(pages, q, i, Given(pages, q), after)
            else if q.base == 0 then Refused(pages, q) && after == pages
            else
              && !Refused(pages, q) && Given(pages, q) == Chunk(q.base, q.size)
              && after == pages + [Page(q.base, q.length, q.base + q.size, q.permission, [Chunk(q.base, q.size)])]
  {
    RunKeepsInv([], requests);
    var pages := Run([], requests);
    hide Run, AllAllowed, FirstFree, FirstRoom, Sum;
    var i := FirstRoom(pages, q.size, q.permission);
    RoomIsFree(pages, q, i);
    if i < |pages| {
      assert PageOk(pages[i]);
      hide Inv;
      assert ServedFrom(pages, q, i, Given(pages, q), Step(pages, q));
    } else {
      assert [] + [Chunk(q.base, q.size)] == [Chunk(q.base, q.size)];
    }
  }

  /** A request for more than a page is not refused: it gets a chunk that leaves its page,
      and that is the only way to get one. */
  lemma ChunkLeavesPage(pages: seq<Page>, q: Request)
    requires Inv(pages) && !Refused(pages, q) && q.size >= 1
    ensures var i, c := FirstRoom(pages, q.size, q.permission), Given(pages, q);
            var p := if i < |pages| then pages[i] else NewPage(q);
            c.address + c.length <= p.base + p.length <==> i < |pages| || q.size <= q.length
  {
  }

  /** A request of 5000 bytes on pages of 4096: the next chunk, on the page mapped right behind, overlaps it. */
  lemma OversizedOverlaps()
    ensures var requests := [Request(5000, ReadExecute, 0x10000, 4096), Request(16, ReadExecute, 0x11000, 4096)];
            var pages := Run([], requests);
            && |pages| == 2 && pages[0].chunks == [Chunk(0x10000, 5000)] && pages[1].chunks == [Chunk(0x11000, 16)]
            && !Disjoint(0x10000, 5000, 0x11000, 16) && Disjoint(0x10000, 4096, 0x11000, 4096)
  {
    var q1, q2 := Request(5000, ReadExecute, 0x10000, 4096), Request(16, ReadExecute, 0x11000, 4096);
    var p1 := Step([], q1);
    assert p1 == [Page(0x10000, 4096, 0x10000 + 5000, ReadExecute, [] + [Chunk(0x10000, 5000)])];
    FirstRoomIs(p1, 16, ReadExecute, 1);
    var p2 := Step(p1, q2);
    assert p2 == p1 + [Page(0x11000, 4096, 0x11000 + 16, ReadExecute, [] + [Chunk(0x11000, 16)])];
    assert [q1, q2][1..] == [q2] && [q2][1..] == [];
    assert Run(p1, [q2]) == Run(p2, []);
  }

  // ---------------------------------------------------------------- alignment

  ghost predicate Aligned(pages: seq<Page>, n: int)
    requires n > 0
  {
    forall i :: 0 <= i < |pages| ==> PageAligned(pages[i], n)
  }

  ghost predicate PageAligned(p: Page, n: int)
    requires n > 0
  {
    p.cursor % n == 0 && forall k :: 0 <= k < |p.chunks| ==> p.chunks[k].address % n == 0
  }

  lemma CutAligned(p: Page, size: int, n: int)
    requires n > 0 && PageAligned(p, n) && size % n == 0
    ensures PageAligned(Cut(p, size), n)
  {
    var a, b := p.cursor / n, size / n;
    assert p.cursor == n * a && size == n * b;
    assert p.cursor + size == (a + b) * n + 0;
    DivUnique(p.cursor + size, n, a + b, 0);
  }

  /** The arena does not align, but one that serves multiples of `n` from aligned pages places
      every chunk at a multiple of `n`. */
  lemma {:induction false} ChunksAligned(pages: seq<Page>, requests: seq<Request>, n: int)
    requires n > 0 && Aligned(pages, n)
    requires forall k :: 0 <= k < |requests| ==> requests[k].size % n == 0 && requests[k].base % n == 0
    ensures Aligned(Run(pages, requests), n)
    decreases |requests|
  {
    hide PageAligned, Cut;
    if requests != [] {
      var q := requests[0];
      var i := FirstRoom(pages, q.size, q.permission);
      if i < |pages| {
        CutAligned(pages[i], q.size, n);
      } else if q.base != 0 {
        FreshAligned(q, n);
        CutAligned(NewPage(q), q.size, n);
      }
      ChunksAligned(Step(pages, q), requests[1..], n);
    }
  }

  lemma FreshAligned(q: Request, n: int)
    requires n > 0 && q.base % n == 0
    ensures PageAligned(NewPage(q), n)
  {
  }

  // ---------------------------------------------------------------- the program

  class MemoryArena {
    var pages: seq<Page>

    constructor ()
      ensures pages == []
    {
      pages := [];
    }

    /** `AllocateChunk`; `base` is what mapping a new page of `length` bytes would return. */
    method AllocateChunk(size: int, permission: Permission, base: int, length: int) returns (ok: bool, chunk: Chunk)
      modifies this
      ensures var q := Request(size, permission, base, length);
              && pages == Step(old(pages), q) && ok == !Refused(old(pages), q)
              && (ok ==> chunk == Given(old(pages), q))
    {
      hide FirstRoom;
      var i := 0;
      while i < |pages| && !HasRoom(pages[i], size, permission)
        invariant 0 <= i <= |pages|
        invariant forall k :: 0 <= k < i ==> !HasRoom(pages[k], size, permission)
      {
        i := i + 1;
      }
      FirstRoomIs(pages, size, permission, i);
      if i == |pages| {
        if base == 0 { return false, Chunk(0, 0); }
        pages := pages + [Page(base, length, base, permission, [])];
      }
      chunk := Chunk(pages[i].cursor, size);
      pages := pages[i := pages[i].(cursor := pages[i].cursor + size, chunks := pages[i].chunks + [chunk])];
      return true, chunk;
    }
  }

  lemma FirstRoomIs(pages: seq<Page>, size: int, permission: Permission, i: nat)
    requires i <= |pages| && (i < |pages| ==> HasRoom(pages[i], size, permission))
    requires forall k :: 0 <= k < i ==> !HasRoom(pages[k], size, permission)
    ensures FirstRoom(pages, size, permission) == i
  {
    var j := FirstRoom(pages, size, permission);
    assert j < |pages| ==> HasRoom(pages[j], size, permission);
  }
}
