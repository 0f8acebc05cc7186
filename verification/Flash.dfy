// NOR flash as the Flash driver sees it: programming a cell can only clear bits, a page
// program wraps inside its 256-byte page, an erase sets one whole aligned sector to 0xFF.
module Flash {
  import opened Arith

  const PAGE: nat := 256

  const ERASED: bv8 := 0xFF

  // What the cell array holds after every byte of data has been programmed at addr onwards.
  function Programmed(cells: seq<bv8>, addr: nat, data: seq<bv8>): (r: seq<bv8>)
    requires addr + |data| <= |cells|
  {
    seq(|cells|, i requires 0 <= i < |cells| =>
      if addr <= i < addr + |data| then cells[i] & data[i - addr] else cells[i])
  }

  // The device's reaction to one page-program command: byte k lands at in-page
  // offset (addr + k) mod 256 of the page that holds addr.
  function PageProgrammed(cells: seq<bv8>, addr: nat, data: seq<bv8>): (r: seq<bv8>)
    requires |data| <= PAGE && addr < |cells|
  {
    seq(|cells|, i requires 0 <= i < |cells| =>
      var k := (i % PAGE + PAGE - addr % PAGE) % PAGE;
      if i / PAGE == addr / PAGE && k < |data| then cells[i] & data[k] else cells[i])
  }

  // Cells lo..hi set to 0xFF.
  function Blanked(cells: seq<bv8>, lo: nat, hi: nat): (r: seq<bv8>)
  {
    seq(|cells|, i requires 0 <= i < |cells| => if lo <= i < hi then ERASED else cells[i])
  }

  // The sector of the given size that holds addr starts here.
  function SectorStart(sector: nat, addr: nat): nat
    requires sector > 0
  {
    addr - addr % sector
  }

  function SectorErased(cells: seq<bv8>, sector: nat, addr: nat): (r: seq<bv8>)
    requires sector > 0
  {
    Blanked(cells, SectorStart(sector, addr), SectorStart(sector, addr) + sector)
  }

  // The cells of the addressed sector and no others.
  lemma SectorErasedExactly(cells: seq<bv8>, sector: nat, addr: nat, x: nat)
    requires sector > 0 && x < |cells|
    ensures SectorErased(cells, sector, addr)[x] == if x / sector == addr / sector then 0xFF else cells[x]
  {
    DivModBounds(x, sector);
    DivModBounds(addr, sector);
    BlockOf(addr / sector, x / sector, x % sector, sector);
    assert SectorStart(sector, addr) == addr / sector * sector;
  }

  // One page-program command: len bytes sent to addr.
  datatype Chunk = Chunk(addr: nat, len: nat)

  // The commands into which a write of len bytes at addr is split.
  function SplitPages(addr: nat, len: nat): seq<Chunk>
    decreases len
  {
    if len == 0 then []
    else
      var room := PAGE - addr % PAGE;
      var n := if len <= room then len else room;
      [Chunk(addr, n)] + SplitPages(addr + n, len - n)
  }

  // No command crosses a page, each starts where the one before ended, and together
  // they cover exactly addr .. addr + len.
  ghost predicate Partition(chunks: seq<Chunk>, addr: nat, len: nat)
  {
    && (forall i :: 0 <= i < |chunks| ==>
          && 0 < chunks[i].len
          && chunks[i].addr % PAGE + chunks[i].len <= PAGE
          && chunks[i].addr == if i == 0 then addr else chunks[i - 1].addr + chunks[i - 1].len)
    && (if chunks == [] then len == 0
        else chunks[|chunks| - 1].addr + chunks[|chunks| - 1].len == addr + len)
  }

  lemma {:induction false} SplitPagesPartitions(addr: nat, len: nat)
    ensures Partition(SplitPages(addr, len), addr, len)
    decreases len
  {
    if len != 0 {
      var room := PAGE - addr % PAGE;
      var n := if len <= room then len else room;
      SplitPagesPartitions(addr + n, len - n);
      PartitionCons(SplitPages(addr + n, len - n), addr, len, n);
    }
  }

  lemma PartitionCons(rest: seq<Chunk>, addr: nat, len: nat, n: nat)
    requires 0 < n <= len && addr % PAGE + n <= PAGE && Partition(rest, addr + n, len - n)
    ensures Partition([Chunk(addr, n)] + rest, addr, len)
  {
    var all := [Chunk(addr, n)] + rest;
    forall i | 0 <= i < |all|
      ensures 0 < all[i].len && all[i].addr % PAGE + all[i].len <= PAGE
      ensures all[i].addr == if i == 0 then addr else all[i - 1].addr + all[i - 1].len
    {
      if i > 0 {
        var j := i - 1;
        assert all[i] == rest[j] && all[j] == (if j == 0 then Chunk(addr, n) else rest[j - 1]);
        assert rest[j].addr == if j == 0 then addr + n else rest[j - 1].addr + rest[j - 1].len;
      }
    }
    if rest != [] {
      assert all[|all| - 1] == rest[|rest| - 1];
    }
  }

  // The part of the range addr .. addr + len that lies in the page with the given number.
  function InPage(page: nat, addr: nat, len: nat): Chunk
    requires len > 0 && addr / 256 <= page <= (addr + len - 1) / 256
  {
    var lo := if page == addr / 256 then addr else page * 256;
    var hi := if page == (addr + len - 1) / 256 then addr + len else page * 256 + 256;
    Chunk(lo, hi - lo)
  }

  // There is exactly one command for each 256-byte page that the range touches, in order, and it
  // covers all of the range in that page.
  lemma {:induction false} OneCommandPerPage(addr: nat, len: nat)
    requires len > 0
    ensures |SplitPages(addr, len)| == (addr + len - 1) / 256 - addr / 256 + 1
    ensures forall i :: 0 <= i < |SplitPages(addr, len)| ==> SplitPages(addr, len)[i] == InPage(addr / 256 + i, addr, len)
    decreases len
  {
    var room := 256 - addr % 256;
    if len > room {
      var rest := SplitPages(addr + room, len - room);
      NextPage(addr);
      OneCommandPerPage(addr + room, len - room);
      assert SplitPages(addr, len) == [Chunk(addr, room)] + rest;
      forall i | 0 <= i < |SplitPages(addr, len)|
        ensures SplitPages(addr, len)[i] == InPage(addr / 256 + i, addr, len)
      {
        assert i > 0 ==> SplitPages(addr, len)[i] == rest[i - 1];
      }
    } else {
      assert SplitPages(addr, len) == [Chunk(addr, len)] + [];
      assert (addr + len - 1) / 256 == addr / 256;
    }
  }

  lemma NextPage(addr: nat)
    ensures (addr + 256 - addr % 256) % 256 == 0 && (addr + 256 - addr % 256) / 256 == addr / 256 + 1
  {
    DivModUnique(addr + 256 - addr % 256, 256, addr / 256 + 1, 0);
  }

  // Inside one page the wrap is invisible.
  lemma PageProgramIsLinear(cells: seq<bv8>, addr: nat, data: seq<bv8>)
    requires addr % PAGE + |data| <= PAGE && addr + |data| <= |cells| && addr < |cells|
    ensures PageProgrammed(cells, addr, data) == Programmed(cells, addr, data)
  {
    forall i | 0 <= i < |cells|
      ensures PageProgrammed(cells, addr, data)[i] == Programmed(cells, addr, data)[i]
    {
      PlaceInPage(addr, |data|, i);
    }
  }

  lemma PlaceInPage(addr: nat, n: nat, i: nat)
    requires addr % PAGE + n <= PAGE
    ensures var k := (i % PAGE + PAGE - addr % PAGE) % PAGE;
            && (i / PAGE == addr / PAGE && k < n <==> addr <= i < addr + n)
            && (addr <= i < addr + n ==> k == i - addr)
  {
  }

  // A command that does not fit in its page damages the start of the page: the split is needed.
  lemma UnsplitProgramDiffers(cells: seq<bv8>, addr: nat, data: seq<bv8>)
    requires addr + |data| <= |cells| && addr < |cells| && |data| <= PAGE
    requires addr % PAGE + |data| > PAGE
    requires forall i :: 0 <= i < |cells| ==> cells[i] == ERASED
    requires data[PAGE - addr % PAGE] != ERASED
    ensures PageProgrammed(cells, addr, data) != Programmed(cells, addr, data)
  {
    var i := addr - addr % PAGE;
    ErasedTakes(data[PAGE - addr % PAGE]);
    assert PageProgrammed(cells, addr, data)[i] == data[PAGE - addr % PAGE];
    assert Programmed(cells, addr, data)[i] == cells[i];
  }

  // An erased cell takes any value.
  lemma ErasedTakes(d: bv8)
    ensures ERASED & d == d
  {
  }

  function Blank(n: nat): (r: seq<bv8>)
    ensures |r| == n
  {
    seq(n, _ => ERASED)
  }

  // A blank stretch takes what is written there.
  lemma ProgrammedSlice(cells: seq<bv8>, addr: nat, data: seq<bv8>)
    requires addr + |data| <= |cells| && cells[addr..addr + |data|] == Blank(|data|)
    ensures Programmed(cells, addr, data)[addr..addr + |data|] == data
  {
    forall j | 0 <= j < |data|
      ensures Programmed(cells, addr, data)[addr + j] == data[j]
    {
      assert cells[addr + j] == cells[addr..addr + |data|][j];
      ErasedTakes(data[j]);
    }
  }

  lemma ProgrammedElsewhere(cells: seq<bv8>, addr: nat, data: seq<bv8>, a: nat, n: nat)
    requires addr + |data| <= |cells| && a + n <= |cells|
    requires a + n <= addr || addr + |data| <= a
    ensures Programmed(cells, addr, data)[a..a + n] == cells[a..a + n]
  {
    forall x | a <= x < a + n
      ensures Programmed(cells, addr, data)[x] == cells[x]
    {
    }
  }

  lemma BlankedSlice(cells: seq<bv8>, lo: nat, hi: nat, a: nat, n: nat)
    requires lo <= a && a + n <= hi && a + n <= |cells|
    ensures Blanked(cells, lo, hi)[a..a + n] == Blank(n)
  {
  }

  lemma BlankedElsewhere(cells: seq<bv8>, lo: nat, hi: nat, a: nat, n: nat)
    requires a + n <= |cells| && (a + n <= lo || hi <= a)
    ensures Blanked(cells, lo, hi)[a..a + n] == cells[a..a + n]
  {
  }

  // The commands sent so far and those still to come are the commands all.
  ghost predicate ToCome(sent: seq<Chunk>, addr: nat, len: nat, all: seq<Chunk>) {
    sent + SplitPages(addr, len) == all
  }

  // The first command of a write, and where it leaves the address.
  lemma NextProgram(sent: seq<Chunk>, addr: nat, len: nat, all: seq<Chunk>)
    requires len > 0 && ToCome(sent, addr, len, all)
    ensures var room := PAGE - addr % PAGE;
            var n := if len <= room then len else room;
            && ToCome(sent + [Chunk(addr, n)], addr + n, len - n, all)
            && (len > n ==> (addr + n) % PAGE == 0)
  {
    var n := if len <= PAGE - addr % PAGE then len else PAGE - addr % PAGE;
    assert sent + [Chunk(addr, n)] + SplitPages(addr + n, len - n) == sent + SplitPages(addr, len);
  }

  // One more chunk of a linear write.
  lemma NextChunk(start: seq<bv8>, cells: seq<bv8>, addr: nat, buf: seq<bv8>, offset: nat, n: nat)
    requires offset + n <= |buf| && addr + |buf| <= |start| && 0 < n
    requires cells == Programmed(start, addr, buf[..offset])
    requires (addr + offset) % PAGE + n <= PAGE
    ensures PageProgrammed(cells, addr + offset, buf[offset..offset + n]) == Programmed(start, addr, buf[..offset + n])
  {
    PageProgramIsLinear(cells, addr + offset, buf[offset..offset + n]);
  }

  class Flash {
    const cells: array<bv8>
    const sector: nat
    // every page-program command sent to the device so far
    ghost var programs: seq<Chunk>

    ghost predicate Valid()
    {
      sector > 0 && cells.Length % sector == 0
    }

    constructor (size: nat, sector: nat)
      requires sector > 0 && size % sector == 0
      ensures Valid() && fresh(cells) && cells.Length == size && this.sector == sector && programs == []
    {
      cells := new bv8[size];
      this.sector := sector;
      programs := [];
    }

    // The FLASH_PAGE_PROGRAM command, as the device carries it out.
    method PageProgram(addr: nat, data: seq<bv8>)
      requires |data| <= PAGE && addr < cells.Length
      modifies this`programs, cells
      ensures cells[..] == PageProgrammed(old(cells[..]), addr, data)
      ensures programs == old(programs) + [Chunk(addr, |data|)]
    {
      forall i | 0 <= i < cells.Length {
        cells[i] :=
          var k := (i % PAGE + PAGE - addr % PAGE) % PAGE;
          if i / PAGE == addr / PAGE && k < |data| then cells[i] & data[k] else cells[i];
      }
      programs := programs + [Chunk(addr, |data|)];
      assert cells[..] == PageProgrammed(old(cells[..]), addr, data);
    }

    // The command for n bytes of a linear write, from offset on.
    method ProgramChunk(addr: nat, buf: seq<bv8>, offset: nat, n: nat, ghost start: seq<bv8>, ghost addr0: nat)
      requires addr0 + |buf| <= |start| && offset + n <= |buf| && addr == addr0 + offset && 0 < n
      requires addr % PAGE + n <= PAGE && cells[..] == Programmed(start, addr0, buf[..offset])
      modifies this`programs, cells
      ensures cells[..] == Programmed(start, addr0, buf[..offset + n])
      ensures programs == old(programs) + [Chunk(addr, n)]
    {
      NextChunk(start, cells[..], addr0, buf, offset, n);
      PageProgram(addr, buf[offset..offset + n]);
    }

    // Any write is one linear write, whatever page boundaries it crosses.
    method Write(addr0: nat, buf: seq<bv8>)
      requires addr0 + |buf| <= cells.Length && |buf| < 0x1_0000
      modifies this`programs, cells
      ensures cells[..] == Programmed(old(cells[..]), addr0, buf)
      ensures programs == old(programs) + SplitPages(addr0, |buf|)
    {
      ghost var start, all := cells[..], programs + SplitPages(addr0, |buf|);
      var addr, len, offset := addr0, |buf|, 0;
      var pageRem := PAGE - addr % PAGE;
      assert Programmed(start, addr0, []) == start;
      while len > 0
        invariant 0 <= offset && 0 <= len && offset + len == |buf| && addr == addr0 + offset
        invariant len > 0 ==> pageRem == PAGE - addr % PAGE
        invariant cells[..] == Programmed(start, addr0, buf[..offset])
        invariant ToCome(programs, addr, len, all)
      {
        var n := if len <= pageRem then len else pageRem;
        NextProgram(programs, addr, len, all);
        ProgramChunk(addr, buf, offset, n, start, addr0);
        addr := addr + n;
        offset := offset + n;
        len := len - n;
        pageRem := PAGE;
      }
      assert buf[..offset] == buf;
    }

    // The driver's byte loop. What was written to blank cells is read back: ProgrammedSlice.
    method Read(addr: nat, len: nat) returns (buf: seq<bv8>)
      requires addr + len <= cells.Length
      ensures buf == cells[addr..addr + len]
    {
      buf := [];
      var i := 0;
      while i < len
        invariant i <= len && buf == cells[addr..addr + i]
      {
        buf := buf + [cells[addr + i]];
        i := i + 1;
      }
    }

    // The command is sent only if the device has let itself be enabled for writing.
    method EraseSector(addr: nat, enabled: bool)
      requires sector > 0 && addr < cells.Length
      modifies cells
      ensures cells[..] == if enabled then SectorErased(old(cells[..]), sector, addr) else old(cells[..])
      ensures forall x :: 0 <= x < cells.Length ==>
                cells[x] == if enabled && x / sector == addr / sector then 0xFF else old(cells[x])
    {
      if enabled {
        var lo := SectorStart(sector, addr);
        forall i | 0 <= i < cells.Length {
          cells[i] := if lo <= i < lo + sector then ERASED else cells[i];
        }
        assert cells[..] == SectorErased(old(cells[..]), sector, addr);
        forall x | 0 <= x < cells.Length
          ensures cells[x] == if x / sector == addr / sector then 0xFF else old(cells[x])
        {
          SectorErasedExactly(old(cells[..]), sector, addr, x);
          assert cells[..][x] == cells[x];
        }
      }
    }
  }
}
