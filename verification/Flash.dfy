/** The SAMD21 internal flash driver: unaligned reads and writes built from whole pages, on
    memory whose programming can only clear bits and whose erasing sets whole rows. */
module Flash {
  import opened BitBytes

  const PAGES_PER_ROW := 4
  const ROWS_PER_SECTOR := 4
  const PAGES_PER_SECTOR := 16

  /** The memory with `s` in place of the bytes from `at` on. */
  function Patch(m: seq<byte>, at: nat, s: seq<byte>): (r: seq<byte>)
    requires at + |s| <= |m|
    ensures |r| == |m|
    ensures forall i :: 0 <= i < |m| ==> r[i] == if at <= i < at + |s| then s[i - at] else m[i]
  {
    m[..at] + s + m[at + |s|..]
  }

  predicate Erased(m: seq<byte>, from: nat, to: nat)
    requires from <= to <= |m|
  {
    forall i :: from <= i < to ==> m[i] == 0xff
  }

  lemma PatchMore(m: seq<byte>, at: nat, s: seq<byte>, t: seq<byte>)
    requires at + |s| + |t| <= |m|
    ensures Patch(Patch(m, at, s), at + |s|, t) == Patch(m, at, s + t)
  {
  }

  lemma EraseStep(was: seq<byte>, now: seq<byte>, sector: nat, at: nat, row: nat)
    requires sector <= at && at + row <= |was|
    requires now == if at == sector then was else Patch(was, sector, Ones(at - sector))
    ensures Patch(now, at, Ones(row)) == Patch(was, sector, Ones(at + row - sector))
  {
    if at > sector {
      PatchMore(was, sector, Ones(at - sector), Ones(row));
      assert Ones(at - sector) + Ones(row) == Ones(at + row - sector);
    }
  }

  function And(a: byte, b: byte): byte { a & b }

  /** What programming does to each cell. */
  function Program(m: seq<byte>, p: seq<byte>): (r: seq<byte>)
    requires |m| == |p|
    ensures |r| == |m|
  {
    seq(|m|, i requires 0 <= i < |m| => And(m[i], p[i]))
  }

  /** Each cell of the page at `base` keeps the bits that are set in both. */
  predicate CellsProgrammed(m: seq<byte>, base: nat, page: seq<byte>, r: seq<byte>) {
    && |r| == |m| && base + |page| <= |m|
    && forall k :: 0 <= k < |m| ==> r[k] == if base <= k < base + |page| then And(m[k], page[k - base]) else m[k]
  }

  lemma ProgramAt(m: seq<byte>, base: nat, page: seq<byte>, r: seq<byte>)
    requires CellsProgrammed(m, base, page, r)
    ensures r == Patch(m, base, Program(m[base..base + |page|], page))
  {
    var p := Program(m[base..base + |page|], page);
    forall k | 0 <= k < |m| ensures r[k] == Patch(m, base, p)[k] {
      if base <= k < base + |page| {
        assert m[base..base + |page|][k - base] == m[k];
      }
    }
  }

  lemma CellsStep(m: seq<byte>, base: nat, page: seq<byte>, i: nat, r: seq<byte>)
    requires i < |page| && base + |page| <= |m| && CellsProgrammed(m, base, page[..i], r)
    ensures r[base + i] == m[base + i]
    ensures CellsProgrammed(m, base, page[..i + 1], r[base + i := And(m[base + i], page[i])])
  {
  }

  /** Programming a page whose changed cells were erased stores it exactly. */
  lemma ProgramErased(m: seq<byte>, at: nat, s: seq<byte>)
    requires at + |s| <= |m| && Erased(m, at, at + |s|)
    ensures Program(m, Patch(m, at, s)) == Patch(m, at, s)
  {
    var p := Patch(m, at, s);
    forall i | 0 <= i < |m| ensures m[i] & p[i] == p[i] {
      if at <= i < at + |s| {
        assert m[i] == 0xff;
        AndOnes(p[i]);
      } else {
        AndSelf(m[i]);
      }
    }
  }

  lemma AndOnes(x: byte)
    ensures 0xff & x == x
  {
  }

  lemma AndSelf(x: byte)
    ensures x & x == x
  {
  }

  class Device {
    const mem: array<byte>
    const pageSize: nat
    /** A device that is never busy: operations on existing pages succeed. */
    const ready: bool

    const pages: nat

    ghost predicate Valid() {
      0 < pageSize <= 64 && mem.Length == pages * pageSize
    }

    constructor (pageSize: nat, pages: nat, ready: bool)
      requires 0 < pageSize <= 64
      ensures Valid() && this.pageSize == pageSize && this.pages == pages && this.ready == ready
    {
      this.pageSize, this.pages, this.ready := pageSize, pages, ready;
      mem := new byte[pages * pageSize](_ => 0xff);
    }

    // ---- The NVM controller ----

    method NvmReadBuffer(base: nat) returns (ok: bool, page: seq<byte>)
      requires Valid()
      ensures ok ==> base % pageSize == 0 && base + pageSize <= mem.Length && page == mem[base..base + pageSize]
      ensures ready && base % pageSize == 0 && base + pageSize <= mem.Length ==> ok
    {
      var busy: bool :| true;
      page := [];
      ok := base % pageSize == 0 && base + pageSize <= mem.Length && (ready || !busy);
      if ok {
        page := mem[base..base + pageSize];
      }
    }

    method NvmWriteBuffer(base: nat, page: seq<byte>) returns (ok: bool)
      requires Valid() && base + pageSize <= mem.Length && |page| == pageSize
      modifies mem
      ensures (ready && base % pageSize == 0 ==> ok) && (ok ==> base % pageSize == 0)
      ensures mem[..] ==
        if ok then Patch(old(mem[..]), base, Program(old(mem[base..base + pageSize]), page)) else old(mem[..])
    {
      var busy: bool :| true;
      if base % pageSize != 0 || (!ready && busy) {
        return false;
      }
      ghost var was := mem[..];
      for i := 0 to pageSize
        invariant CellsProgrammed(was, base, page[..i], mem[..])
      {
        CellsStep(was, base, page, i, mem[..]);
        ghost var now := mem[..];
        mem[base + i] := And(mem[base + i], page[i]);
        assert mem[..] == now[base + i := And(was[base + i], page[i])];
      }
      assert page[..pageSize] == page;
      ProgramAt(was, base, page, mem[..]);
      ok := true;
    }

    method NvmEraseRow(row: nat) returns (ok: bool)
      requires Valid()
      modifies mem
      ensures ok ==> row % (PAGES_PER_ROW * pageSize) == 0 && row + PAGES_PER_ROW * pageSize <= mem.Length
      ensures mem[..] == if ok then Patch(old(mem[..]), row, Ones(PAGES_PER_ROW * pageSize)) else old(mem[..])
      ensures ready && row % (PAGES_PER_ROW * pageSize) == 0 && row + PAGES_PER_ROW * pageSize <= mem.Length ==> ok
    {
      var busy: bool :| true;
      var size := PAGES_PER_ROW * pageSize;
      if row % size != 0 || row + size > mem.Length || (!ready && busy) {
        return false;
      }
      ghost var was := mem[..];
      for i := 0 to size
        invariant mem[..] == Patch(was, row, Ones(i))
      {
        mem[row + i] := 0xff;
      }
      ok := true;
    }

    // ---- The driver ----

    /** samd21_flash_read: the flat slice, page by page. */
    method Read(address: nat, n: nat) returns (ok: bool, dst: seq<byte>)
      requires Valid()
      ensures ok ==> (n > 0 ==> address + n <= mem.Length) && |dst| == n
      ensures ok && n > 0 ==> dst == mem[address..address + n]
      ensures ready ==> (ok <==> n == 0 || address + n <= mem.Length)
    {
      dst := [];
      while |dst| < n
        invariant |dst| <= n
        invariant dst != [] ==> address + |dst| <= mem.Length && dst == mem[address..address + |dst|]
      {
        var part;
        ok, part := ReadPage(address + |dst|, n - |dst|);
        if !ok {
          return;
        }
        dst := dst + part;
      }
      ok := true;
    }

    /** The rest of the page that holds `at`, up to `n` bytes of it. */
    method ReadPage(at: nat, n: nat) returns (ok: bool, part: seq<byte>)
      requires Valid() && n > 0
      ensures ok ==> 0 < |part| <= n && at + |part| <= mem.Length && part == mem[at..at + |part|]
      ensures ready && at < mem.Length ==> ok
    {
      Geometry(at, pageSize, pages);
      var base := at - at % pageSize;
      var offset := at - base;
      var len := if pageSize - offset > n then n else pageSize - offset;
      var page;
      ok, page := NvmReadBuffer(base);
      part := [];
      if ok {
        part := page[offset..offset + len];
        SliceOfSlice(mem[..], base, page, offset, len);
      }
    }

    /** The copy into the page buffer, refused at the first byte that is not erased. */
    method PatchPage(page: seq<byte>, offset: nat, part: seq<byte>) returns (ok: bool, page': seq<byte>)
      requires offset + |part| <= |page|
      ensures ok <==> Erased(page, offset, offset + |part|)
      ensures ok ==> page' == Patch(page, offset, part)
    {
      page' := page;
      for i := 0 to |part|
        invariant page' == Patch(page, offset, part[..i])
        invariant Erased(page, offset, offset + i)
      {
        if page'[offset + i] != 0xff {
          return false, page';
        }
        page' := page'[offset + i := part[i]];
      }
      assert part[..|part|] == part;
      ok := true;
    }

    /** One page of a write: all of `part` is stored, or nothing changes. */
    method WritePage(at: nat, part: seq<byte>) returns (ok: bool)
      requires Valid() && part != [] && at % pageSize + |part| <= pageSize
      modifies mem
      ensures ok ==> at + |part| <= mem.Length && Erased(old(mem[..]), at, at + |part|)
      ensures mem[..] == if ok then Patch(old(mem[..]), at, part) else old(mem[..])
      ensures ready && at + |part| <= mem.Length && Erased(old(mem[..]), at, at + |part|) ==> ok
    {
      Geometry(at, pageSize, pages);
      var base := at - at % pageSize;
      ok := StoreInPage(base, at - base, part);
    }

    method StoreInPage(base: nat, offset: nat, part: seq<byte>) returns (ok: bool)
      requires Valid() && part != [] && offset + |part| <= pageSize
      modifies mem
      ensures ok ==> base + pageSize <= mem.Length && Erased(old(mem[..]), base + offset, base + offset + |part|)
      ensures mem[..] == if ok then Patch(old(mem[..]), base + offset, part) else old(mem[..])
      ensures ready && base % pageSize == 0 && base + pageSize <= mem.Length ==>
        (ok <==> Erased(old(mem[..]), base + offset, base + offset + |part|))
    {
      var page;
      ok, page := NvmReadBuffer(base);
      if !ok {
        return;
      }
      ghost var was := page;
      ErasedInPage(mem[..], base, page, offset, |part|);
      ok, page := PatchPage(page, offset, part);
      if !ok {
        return;
      }
      ok := NvmWriteBuffer(base, page);
      ProgramErased(was, offset, part);
      PatchInPage(old(mem[..]), base, was, offset, part);
    }

    /** How much of `n` bytes from `at` on fits its page; less than all of it ends the page. */
    method NextPart(at: nat, n: nat) returns (len: nat)
      requires Valid() && n > 0
      ensures 0 < len <= n && at % pageSize + len <= pageSize
      ensures len < n ==> (at + len) % pageSize == 0
    {
      Geometry(at, pageSize, pages);
      var room := pageSize - at % pageSize;
      len := if room > n then n else room;
    }

    /** A turn of the write loop: store the part of `src` that falls into the next page. */
    method WriteNext(address: nat, src: seq<byte>, k: nat, len: nat, ghost was: seq<byte>) returns (ok: bool)
      requires Valid() && 0 < len && k + len <= |src| && (address + k) % pageSize + len <= pageSize
      requires Progress(was, mem[..], address, src, k)
      modifies mem
      ensures Progress(was, mem[..], address, src, if ok then k + len else k)
      ensures ready && address + |src| <= mem.Length && Erased(was, address, address + |src|) ==> ok
    {
      ghost var now := mem[..];
      ok := WritePage(address + k, src[k..k + len]);
      ProgressStep(was, now, mem[..], address, src, k, len, ok);
    }

    /** samd21_flash_write. `done` bytes have been stored on return, a whole number of pages'
        parts; on success that is everything. */
    method Write(address: nat, src: seq<byte>) returns (ok: bool, ghost done: nat)
      requires Valid()
      modifies mem
      ensures done <= |src| && (ok <==> done == |src|)
      ensures done > 0 ==> address + done <= mem.Length && Erased(old(mem[..]), address, address + done)
      ensures mem[..] == if done > 0 then Patch(old(mem[..]), address, src[..done]) else old(mem[..])
      ensures !ok && done > 0 ==> (address + done) % pageSize == 0
      ensures ready ==>
        (ok <==> src == [] || (address + |src| <= mem.Length && Erased(old(mem[..]), address, address + |src|)))
    {
      ghost var was := mem[..];
      var k := 0;
      while k < |src|
        invariant 0 <= k <= |src|
        invariant Progress(was, mem[..], address, src, k)
        invariant 0 < k < |src| ==> (address + k) % pageSize == 0
      {
        var len := NextPart(address + k, |src| - k);
        ok := WriteNext(address, src, k, len, was);
        if !ok {
          done := k;
          return;
        }
        k := k + len;
      }
      ok, done := true, k;
    }

    /** The next row of a sector of which the rows before `at` are erased. */
    method EraseNext(at: nat, ghost was: seq<byte>, ghost sector: nat) returns (ok: bool)
      requires Valid() && |was| == mem.Length && sector <= at && (sector < at ==> at <= mem.Length)
      requires mem[..] == if at == sector then was else Patch(was, sector, Ones(at - sector))
      modifies mem
      ensures ok ==> at % (PAGES_PER_ROW * pageSize) == 0 && at + PAGES_PER_ROW * pageSize <= mem.Length
      ensures ok ==> mem[..] == Patch(was, sector, Ones(at + PAGES_PER_ROW * pageSize - sector))
      ensures !ok ==> mem[..] == old(mem[..])
      ensures ready && at % (PAGES_PER_ROW * pageSize) == 0 && at + PAGES_PER_ROW * pageSize <= mem.Length ==> ok
    {
      ghost var now := mem[..];
      ok := NvmEraseRow(at);
      if ok {
        EraseStep(was, now, sector, at, PAGES_PER_ROW * pageSize);
      }
    }

    /** samd21_flash_erase_sector. `done` bytes are erased on return, a whole number of rows; on
        success that is the sector. */
    method EraseSector(sector: nat) returns (ok: bool, ghost done: nat)
      requires Valid()
      modifies mem
      ensures done <= PAGES_PER_SECTOR * pageSize && (ok <==> done == PAGES_PER_SECTOR * pageSize)
      ensures exists rows: nat :: rows <= ROWS_PER_SECTOR && done == rows * (PAGES_PER_ROW * pageSize)
      ensures done > 0 ==> sector % (PAGES_PER_ROW * pageSize) == 0 && sector + done <= mem.Length
      ensures mem[..] == if done > 0 then Patch(old(mem[..]), sector, Ones(done)) else old(mem[..])
      ensures ready && sector % (PAGES_PER_ROW * pageSize) == 0 ==>
        (sector + PAGES_PER_SECTOR * pageSize <= mem.Length ==> ok)
    {
      ghost var was := mem[..];
      var row := PAGES_PER_ROW * pageSize;
      var at := sector;
      for i := 0 to ROWS_PER_SECTOR
        invariant at == sector + (if i == 0 then 0 else if i == 1 then row else if i == 2 then 2 * row
                                  else if i == 3 then 3 * row else 4 * row)
        invariant i > 0 ==> at <= mem.Length && sector % row == 0
        invariant mem[..] == if at == sector then was else Patch(was, sector, Ones(at - sector))
        invariant sector % row == 0 ==> at % row == 0
      {
        NextMultiple(at, row);
        ok := EraseNext(at, was, sector);
        if !ok {
          done := at - sector;
          assert done == i * row;
          return;
        }
        at := at + row;
      }
      ok, done := true, at - sector;
      assert done == ROWS_PER_SECTOR * row;
    }

    function SectorSize(): nat { PAGES_PER_SECTOR * pageSize }

    function SectorCount(): nat { pages / PAGES_PER_SECTOR }

    /** samd21_flash_sector_info */
    method SectorInfo(idx: int) returns (ok: bool, address: nat, size: nat)
      requires Valid()
      ensures ok <==> 0 <= idx < SectorCount()
      ensures ok ==> size == SectorSize() && address == idx * size && address + size <= mem.Length
    {
      address, size := 0, 0;
      ok := 0 <= idx < pages / PAGES_PER_SECTOR;
      if ok {
        size := PAGES_PER_SECTOR * pageSize;
        address := idx * size;
        SectorInside(idx, pageSize, pages);
      }
    }

    /** The sector that holds an address: there is one exactly below the end of the last sector, and
        no other sector that samd21_flash_sector_info tells of holds it. */
    method SectorOf(a: nat) returns (ok: bool, idx: nat, address: nat, size: nat)
      requires Valid()
      ensures ok <==> a < SectorCount() * SectorSize()
      ensures ok ==> idx < SectorCount() && size == SectorSize() && address == idx * size
      ensures ok ==> address <= a < address + size
      ensures ok ==> forall i: nat :: i < SectorCount() && i * size <= a < i * size + size ==> i == idx
    {
      idx := a / SectorSize();
      ok, address, size := SectorInfo(idx);
      if a < SectorCount() * SectorSize() {
        forall i: nat | i < SectorCount()
          ensures i * SectorSize() <= a < i * SectorSize() + SectorSize() <==> i == idx
        {
          SectorsTile(a, SectorSize(), SectorCount(), i);
        }
        SectorsTile(a, SectorSize(), SectorCount(), idx);
      } else {
        BeyondSectors(a, SectorSize(), SectorCount());
      }
    }

    /** Erase the sectors that hold `n` bytes from `address` on. */
    method EraseRange(address: nat, n: nat) returns (ok: bool, ghost from: nat, ghost to: nat)
      requires Valid() && n > 0
      modifies mem
      ensures ok ==> from <= address && address + n <= to <= mem.Length && Erased(mem[..], from, to)
      ensures ok ==> forall i :: 0 <= i < mem.Length && !(from <= i < to) ==> mem[i] == old(mem[i])
      ensures ready && address + n <= SectorCount() * SectorSize() ==> ok
    {
      var size := PAGES_PER_SECTOR * pageSize;
      Geometry(address, size, SectorCount());
      ghost var start := mem[..];
      var at := address - address % size;
      from, to := at, at;
      ok := true;
      while at < address + n
        invariant from <= at && from <= address
        invariant at == from || at <= mem.Length
        invariant ErasedRange(start, mem[..], from, at)
        invariant at % size == 0
        decreases address + n - at
      {
        NextSector(at, pageSize, pages);
        ghost var was := mem[..];
        ghost var done;
        ok, done := EraseSector(at);
        if !ok {
          return;
        }
        ErasedMore(start, was, mem[..], from, at, size);
        at := at + size;
      }
      to := at;
    }

    /** Erase, write and read back any range, aligned or not. */
    method Rewrite(address: nat, src: seq<byte>) returns (ok: bool, back: seq<byte>)
      requires Valid() && src != []
      modifies mem
      ensures ok ==> back == src
      ensures ready && address + |src| <= SectorCount() * SectorSize() ==> ok
    {
      ghost var from, to, done;
      back := [];
      ok, from, to := EraseRange(address, |src|);
      if ok {
        assert Erased(mem[..], address, address + |src|);
        ok, done := Write(address, src);
        if ok {
          assert src[..|src|] == src;
          assert mem[address..address + |src|] == src;
          ok, back := Read(address, |src|);
        }
      }
    }
  }

  lemma SectorInside(idx: nat, pageSize: nat, pages: nat)
    requires idx < pages / PAGES_PER_SECTOR
    ensures idx * (PAGES_PER_SECTOR * pageSize) + PAGES_PER_SECTOR * pageSize <= pages * pageSize
  {
    SectorsInside(pageSize, pages);
    MulMono(idx + 1, pages / PAGES_PER_SECTOR, PAGES_PER_SECTOR * pageSize);
    assert (idx + 1) * (PAGES_PER_SECTOR * pageSize) ==
      idx * (PAGES_PER_SECTOR * pageSize) + PAGES_PER_SECTOR * pageSize;
  }

  lemma SectorsInside(pageSize: nat, pages: nat)
    ensures pages / PAGES_PER_SECTOR * (PAGES_PER_SECTOR * pageSize) <= pages * pageSize
  {
    var c := pages / PAGES_PER_SECTOR;
    MulMono(c * PAGES_PER_SECTOR, pages, pageSize);
    assert c * (PAGES_PER_SECTOR * pageSize) == c * PAGES_PER_SECTOR * pageSize;
  }

  lemma NextSector(at: nat, pageSize: nat, pages: nat)
    requires pageSize > 0 && at % (PAGES_PER_SECTOR * pageSize) == 0
    ensures var size := PAGES_PER_SECTOR * pageSize;
      && (at + size) % size == 0
      && at % (PAGES_PER_ROW * pageSize) == 0
      && (at < pages / PAGES_PER_SECTOR * size ==> at + size <= pages * pageSize)
  {
    var size := PAGES_PER_SECTOR * pageSize;
    NextMultiple(at, size);
    RowsInSector(at, PAGES_PER_ROW * pageSize);
    SectorsInside(pageSize, pages);
    Geometry(at, size, pages / PAGES_PER_SECTOR);
  }

  /** `now` is `start` with exactly the range from `from` to `to` erased. */
  ghost predicate ErasedRange(start: seq<byte>, now: seq<byte>, from: nat, to: nat) {
    && |now| == |start|
    && (from < to <= |now| ==> Erased(now, from, to))
    && forall i :: 0 <= i < |now| && !(from <= i < to) ==> now[i] == start[i]
  }

  lemma ErasedMore(start: seq<byte>, was: seq<byte>, now: seq<byte>, from: nat, at: nat, n: nat)
    requires ErasedRange(start, was, from, at) && from <= at && at + n <= |was|
    requires now == Patch(was, at, Ones(n))
    ensures ErasedRange(start, now, from, at + n)
  {
    forall i | from <= i < at + n ensures now[i] == 0xff {
      if i < at {
        assert was[i] == 0xff;
      }
    }
  }

  lemma RowsInSector(a: nat, row: nat)
    requires row > 0 && a % (4 * row) == 0
    ensures a % row == 0
  {
    var q := a / (4 * row);
    DivRem(a, 4 * row);
    Multiple(q * 4, row);
    assert q * (4 * row) == q * 4 * row;
  }

  /** The sectors are disjoint and tile the memory they count: every address lies in exactly one. */
  lemma SectorsTile(a: nat, size: nat, count: nat, i: nat)
    requires size > 0 && a < count * size
    ensures a / size < count
    ensures i * size <= a < i * size + size <==> i == a / size
  {
    var q := a / size;
    DivRem(a, size);
    if q >= count { MulMono(count, q, size); }
    assert (i + 1) * size == i * size + size && (q + 1) * size == q * size + size;
    if i < q { MulMono(i + 1, q, size); }
    if q < i { MulMono(q + 1, i, size); }
  }

  lemma BeyondSectors(a: nat, size: nat, count: nat)
    requires size > 0 && a >= count * size
    ensures a / size >= count
  {
    var q := a / size;
    DivRem(a, size);
    assert (q + 1) * size == q * size + size;
    if q < count {
      MulMono(q + 1, count, size);
    }
  }

  function Ones(n: nat): seq<byte> { seq(n, _ => 0xff) }

  lemma MulMono(a: nat, b: nat, p: nat)
    requires a <= b
    ensures a * p <= b * p
  {
  }

  lemma DivRem(a: nat, p: nat)
    requires p > 0
    ensures a == (a / p) * p + a % p && 0 <= a % p < p
  {
  }

  lemma Multiple(q: nat, p: nat)
    requires p > 0
    ensures (q * p) % p == 0 && (q * p) / p == q
  {
    var k := (q * p) / p;
    DivRem(q * p, p);
    assert (k + 1) * p == k * p + p && (q + 1) * p == q * p + p;
    if q > k { MulMono(k + 1, q, p); }
    if q < k { MulMono(q + 1, k, p); }
  }

  lemma NextMultiple(a: nat, p: nat)
    requires p > 0
    ensures a % p == 0 ==> (a + p) % p == 0
  {
    DivRem(a, p);
    Multiple(a / p + 1, p);
    assert (a / p + 1) * p == (a / p) * p + p;
  }

  /** Where an address lies in its page, and that pages do not straddle the end of the memory. */
  lemma Geometry(at: nat, pageSize: nat, pages: nat)
    requires pageSize > 0
    ensures var base := at - at % pageSize;
      && 0 <= base <= at < base + pageSize
      && base % pageSize == 0 && (base + pageSize) % pageSize == 0
      && (at < pages * pageSize ==> base + pageSize <= pages * pageSize)
  {
    var q := at / pageSize;
    DivRem(at, pageSize);
    Multiple(q, pageSize);
    NextMultiple(q * pageSize, pageSize);
    if at < pages * pageSize {
      if q >= pages { MulMono(pages, q, pageSize); }
      MulMono(q + 1, pages, pageSize);
    }
  }

  /** The first `k` bytes of `src` are stored, on cells that were erased. */
  ghost predicate Progress(was: seq<byte>, now: seq<byte>, at: nat, src: seq<byte>, k: nat) {
    && k <= |src|
    && (k > 0 ==> at + k <= |was| && Erased(was, at, at + k))
    && now == if k > 0 then Patch(was, at, src[..k]) else was
  }

  /** Storing the next part makes progress; not storing it leaves things as they were, and an
      erased part looks erased to the driver. */
  lemma ProgressStep(was: seq<byte>, now: seq<byte>, next: seq<byte>, at: nat, src: seq<byte>, k: nat, n: nat, ok: bool)
    requires Progress(was, now, at, src, k) && n > 0 && k + n <= |src|
    requires ok ==> at + k + n <= |now| && Erased(now, at + k, at + k + n)
    requires next == if ok then Patch(now, at + k, src[k..k + n]) else now
    ensures Progress(was, next, at, src, if ok then k + n else k)
    ensures |next| == |was| && (at + |src| <= |was| && Erased(was, at, at + |src|) ==> Erased(now, at + k, at + k + n))
  {
    assert |now| == |was|;
    assert forall i :: at + k <= i < |now| ==> now[i] == was[i];
    if ok {
      assert src[..k] + src[k..k + n] == src[..k + n];
      if k > 0 {
        PatchMore(was, at, src[..k], src[k..k + n]);
      }
    }
  }

  lemma ErasedInPage(m: seq<byte>, base: nat, page: seq<byte>, offset: nat, n: nat)
    requires base + |page| <= |m| && page == m[base..base + |page|] && offset + n <= |page|
    ensures Erased(page, offset, offset + n) <==> Erased(m, base + offset, base + offset + n)
  {
    forall i | base + offset <= i < base + offset + n ensures m[i] == page[i - base] {
    }
    if Erased(m, base + offset, base + offset + n) {
      forall i | offset <= i < offset + n ensures page[i] == 0xff {
        assert m[base + i] == 0xff;
      }
    }
  }

  lemma SliceOfSlice(m: seq<byte>, base: nat, page: seq<byte>, offset: nat, n: nat)
    requires base + |page| <= |m| && page == m[base..base + |page|] && offset + n <= |page|
    ensures page[offset..offset + n] == m[base + offset..base + offset + n]
  {
    var a, b := page[offset..offset + n], m[base + offset..base + offset + n];
    forall i | 0 <= i < n ensures a[i] == b[i] {
      assert page[offset + i] == m[base + offset + i];
    }
  }

  lemma PatchInPage(m: seq<byte>, base: nat, page: seq<byte>, offset: nat, part: seq<byte>)
    requires base + |page| <= |m| && page == m[base..base + |page|] && offset + |part| <= |page|
    ensures Patch(m, base, Patch(page, offset, part)) == Patch(m, base + offset, part)
  {
  }
}
