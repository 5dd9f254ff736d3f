/** The boot loader's sector addressing and its kernel load loop. */
module Boot {
  import opened Bytes
  import Numerals

  const SECTOR_BYTES: nat := 512
  const FIRST_SECTOR: nat := 2
  const TOTAL_SECTORS: nat := 0x50      // the last sector read
  const FIRST_OFFSET: nat := 0x0800     // a segment, sixteen bytes a unit
  const SECTOR_UNITS: nat := 0x20
  const LOAD_ADDRESS: nat := 0x8000
  const LOADED: nat := 79               // sectors from the first to the last

  const READ: byte := 2                 // the function of int 0x13 that reads sectors
  const TELETYPE: byte := 0x0E          // the function of int 0x10 that print_bios leaves in ah
  const MAX_ATTEMPTS: nat := 5

  /** Whether the n-th disk interrupt comes back with the carry flag set, for the function it is called with. */
  type Failures = (nat, byte) -> bool

  predicate Fails(bios: Failures, n: nat, ah: byte) {
    bios(n, ah)
  }

  /** The reads from interrupt c on succeed, k of them. */
  ghost predicate AllRead(bios: Failures, c: nat, k: nat) {
    forall i :: c <= i < c + k ==> !Fails(bios, i, READ)
  }

  /** The k interrupts behind a failed read fail as well; they ask for another function, which is not a read. */
  ghost predicate RetriesFail(bios: Failures, c: nat, k: nat) {
    forall i :: c < i <= c + k ==> Fails(bios, i, TELETYPE)
  }

  /** Sectors per track and number of heads, as get_diskinfo stores them. */
  datatype Geometry = Geometry(spt: nat, heads: nat) {
    ghost predicate Valid() {
      1 <= spt <= 63 && 1 <= heads <= 255
    }
  }

  /** get_diskinfo: the BIOS returns the last head number in dh and the sectors per track in six bits of cl. */
  function DiskInfo(dh: byte, cl: byte): (g: Geometry)
    ensures g.Valid() <==> dh != 255 && cl % 64 != 0
  {
    Geometry(cl % 64, (dh + 1) % 256)
  }

  /** What it stores is the geometry the BIOS reports, whatever cylinder bits stand above the sectors in cl. */
  lemma DiskInfoExact(drive: Geometry, high: nat)
    requires drive.Valid() && high < 4
    ensures DiskInfo(drive.heads - 1, drive.spt + 64 * high) == drive
  {
    assert (drive.spt + 64 * high) % 64 == drive.spt;
  }

  datatype Chs = Chs(cyl: byte, head: byte, sector: byte)

  /** lba_chs: two 16-bit divisions whose results are stored as bytes. */
  function LbaChs(lba: nat, g: Geometry): Chs
    requires g.Valid() && lba < 0x1_0000
  {
    var track := lba / g.spt;
    Chs(track / g.heads % 0x100, track % g.heads % 0x100, (lba % g.spt % 0x100 + 1) % 0x100)
  }

  /** The sector a drive of this geometry finds at a cylinder, head and sector. */
  function Linear(a: Chs, g: Geometry): int
    requires g.Valid()
  {
    (a.cyl * g.heads + a.head) * g.spt + a.sector - 1
  }

  lemma Small(x: nat, d: nat)
    requires 0 < d <= 255
    ensures x % d % 0x100 == x % d < d
  {
  }

  lemma ChsSector(lba: nat, g: Geometry)
    requires g.Valid() && lba < 0x1_0000
    ensures var a := LbaChs(lba, g); a.sector == lba % g.spt + 1 && 1 <= a.sector <= g.spt
  {
    Small(lba, g.spt);
  }

  lemma ChsHead(lba: nat, g: Geometry)
    requires g.Valid() && lba < 0x1_0000
    ensures var a := LbaChs(lba, g); a.head == lba / g.spt % g.heads && a.head < g.heads
  {
    Small(lba / g.spt, g.heads);
  }

  lemma ChsParts(lba: nat, g: Geometry)
    requires g.Valid() && lba < 0x1_0000
    ensures var a := LbaChs(lba, g);
      && a.head == lba / g.spt % g.heads && a.head < g.heads
      && a.sector == lba % g.spt + 1 && 1 <= a.sector <= g.spt
      && a.cyl == lba / g.spt / g.heads % 0x100
  {
    ChsSector(lba, g);
    ChsHead(lba, g);
  }

  /** Putting three parts back together; k is what the first part has lost. */
  lemma Recombine(lba: nat, track: nat, rest: nat, cyl: nat, head: nat, spt: nat, heads: nat, k: int)
    requires lba == track * spt + rest && track == (cyl - k) * heads + head
    ensures (cyl * heads + head) * spt + rest == lba + k * heads * spt
  {
    assert cyl * heads + head == track + k * heads;
    assert (track + k * heads) * spt == track * spt + k * heads * spt;
  }

  lemma Gap(x: int, y: int, z: int)
    requires x <= 0 && 0 < y && 0 < z
    ensures x * y * z == 0 <==> x == 0
  {
    if x < 0 {
      assert x * y < 0;
    }
  }

  lemma LostCylinders(c: nat)
    ensures c % 0x100 - c <= 0 && (c % 0x100 - c == 0 <==> c < 0x100)
  {
  }

  lemma PartsRoundTrip(lba: nat, track: nat, c: nat, a: Chs, g: Geometry)
    requires g.Valid() && lba == track * g.spt + (a.sector - 1) && 1 <= a.sector
    requires track == c * g.heads + a.head && a.cyl == c % 0x100
    ensures Linear(a, g) == lba <==> c < 0x100
  {
    LostCylinders(c);
    Recombine(lba, track, a.sector - 1, a.cyl, a.head, g.spt, g.heads, a.cyl - c);
    Gap(a.cyl - c, g.heads, g.spt);
  }

  /** The address leads back to the sector exactly when its cylinder fits the byte it is stored in. */
  lemma ChsRoundTrip(lba: nat, g: Geometry)
    requires g.Valid() && lba < 0x1_0000
    ensures Linear(LbaChs(lba, g), g) == lba <==> lba / g.spt / g.heads < 0x100
  {
    ChsParts(lba, g);
    Shrinks(lba, g.spt);
    Shrinks(lba / g.spt, g.heads);
    Numerals.DivMod(lba, g.spt);
    Numerals.DivMod(lba / g.spt, g.heads);
    PartsRoundTrip(lba, lba / g.spt, lba / g.spt / g.heads, LbaChs(lba, g), g);
  }

  /** All sectors of the kernel have a cylinder that fits, on every geometry. */
  lemma KernelSectorsFit(lba: nat, g: Geometry)
    requires g.Valid() && lba <= TOTAL_SECTORS
    ensures lba / g.spt / g.heads < 0x100
  {
    Shrinks(lba, g.spt);
    Shrinks(lba / g.spt, g.heads);
  }

  lemma Shrinks(a: nat, b: nat)
    requires 0 < b
    ensures 0 <= a / b <= a
  {
    Numerals.DivMod(a, b);
    Numerals.MulMonotone(1, b, a / b);
  }

  class Loader {
    const memory: array<byte>
    const disk: seq<byte>
    const drive: Geometry    // the drive as it is
    const high: nat          // the cylinder bits the BIOS reports in cl, above the sectors per track
    const bios: Failures
    var g: Geometry          // spt and numhd, as far as get_diskinfo has stored them
    var calls: nat           // disk interrupts so far
    var currentSector: nat
    var currentOffset: nat
    var sector: byte
    var head: byte
    var cyl: byte

    constructor (memory: array<byte>, disk: seq<byte>, drive: Geometry, high: nat, bios: Failures, calls: nat)
      ensures this.memory == memory && this.disk == disk && this.drive == drive && this.high == high
      ensures this.bios == bios && this.calls == calls && g == Geometry(0, 0)
      ensures currentSector == FIRST_SECTOR && currentOffset == FIRST_OFFSET
    {
      this.memory, this.disk, this.drive, this.high, this.bios := memory, disk, drive, high, bios;
      this.calls, g := calls, Geometry(0, 0);
      currentSector, currentOffset := FIRST_SECTOR, FIRST_OFFSET;
      sector, head, cyl := 0, 0, 0;
    }

    ghost predicate Valid() {
      && drive.Valid() && high < 4
      && LOAD_ADDRESS + LOADED * SECTOR_BYTES <= memory.Length
      && (TOTAL_SECTORS + 1) * SECTOR_BYTES <= |disk|
    }

    /** int 0x13, function 8: the last head in dh, and in cl the sectors per track below two cylinder bits. */
    method Parameters() returns (dh: byte, cl: byte)
      requires drive.Valid() && high < 4
      ensures dh == drive.heads - 1 && cl == drive.spt + 64 * high
    {
      dh, cl := drive.heads - 1, drive.spt + 64 * high;
    }

    /** get_diskinfo */
    method GetDiskInfo()
      requires drive.Valid() && high < 4
      modifies `g
      ensures g == DiskInfo(drive.heads - 1, drive.spt + 64 * high) == drive
    {
      var dh, cl := Parameters();
      dh := (dh + 1) % 256;
      cl := cl % 64;
      g := Geometry(cl, dh);
      DiskInfoExact(drive, high);
    }

    method Convert(ax: nat)
      requires g.Valid() && ax < 0x1_0000
      modifies `sector, `head, `cyl
      ensures Chs(cyl, head, sector) == LbaChs(ax, g)
    {
      var track, rest := ax / g.spt, ax % g.spt;
      var bx := track;
      sector := rest % 0x100;
      sector := (sector + 1) % 0x100;
      head := track % g.heads % 0x100;
      cyl := bx / g.heads % 0x100;
    }

    /** int 0x13, function 2, for one sector, when it succeeds. */
    method ReadSector(segment: nat, a: Chs)
      requires drive.Valid() && 0 <= Linear(a, drive) && (Linear(a, drive) + 1) * SECTOR_BYTES <= |disk|
      requires segment * 16 + SECTOR_BYTES <= memory.Length
      modifies memory
      ensures memory[..] ==
        WithSector(old(memory[..]), segment * 16, disk, Linear(a, drive) * SECTOR_BYTES, SECTOR_BYTES)
    {
      var from, to := Linear(a, drive) * SECTOR_BYTES, segment * 16;
      var i := 0;
      SectorNone(memory[..], to, disk, from);
      while i < SECTOR_BYTES
        invariant 0 <= i <= SECTOR_BYTES
        invariant memory[..] == WithSector(old(memory[..]), to, disk, from, i)
      {
        SectorStep(old(memory[..]), to, disk, from, i);
        memory[to + i] := disk[from + i];
        i := i + 1;
      }
    }

    /** int 0x13 for one sector: a read that does not fail stores it, and nothing else does. */
    method Int13(ah: byte, segment: nat, a: Chs) returns (carry: bool)
      requires drive.Valid() && 0 <= Linear(a, drive) && (Linear(a, drive) + 1) * SECTOR_BYTES <= |disk|
      requires segment * 16 + SECTOR_BYTES <= memory.Length
      modifies `calls, memory
      ensures calls == old(calls) + 1 && carry == Fails(bios, old(calls), ah)
      ensures memory[..] ==
        if carry || ah != READ then old(memory[..])
        else WithSector(old(memory[..]), segment * 16, disk, Linear(a, drive) * SECTOR_BYTES, SECTOR_BYTES)
    {
      carry := Fails(bios, calls, ah);
      calls := calls + 1;
      if !carry && ah == READ {
        ReadSector(segment, a);
      }
    }

    /** read_disk: the error message is printed before every retry, which leaves its own function number in ah. */
    method ReadDisk(segment: nat, a: Chs) returns (hung: bool)
      requires drive.Valid() && 0 <= Linear(a, drive) && (Linear(a, drive) + 1) * SECTOR_BYTES <= |disk|
      requires segment * 16 + SECTOR_BYTES <= memory.Length
      modifies `calls, memory
      ensures !Fails(bios, old(calls), READ) ==>
        && !hung && calls == old(calls) + 1
        && memory[..] == WithSector(old(memory[..]), segment * 16, disk, Linear(a, drive) * SECTOR_BYTES, SECTOR_BYTES)
      ensures Fails(bios, old(calls), READ) ==>
        memory[..] == old(memory[..]) && (hung <==> RetriesFail(bios, old(calls), MAX_ATTEMPTS))
    {
      var attempts, ah := 0, READ;
      ghost var c := calls;
      while true
        invariant attempts <= MAX_ATTEMPTS && calls == c + attempts && memory[..] == old(memory[..])
        invariant ah == if attempts == 0 then READ else TELETYPE
        invariant attempts > 0 ==> Fails(bios, c, READ) && RetriesFail(bios, c, attempts - 1)
        decreases MAX_ATTEMPTS - attempts
      {
        var carry := Int13(ah, segment, a);
        if !carry {
          return false;
        }
        ah := TELETYPE;   // print_bios
        attempts := attempts + 1;
        if attempts > MAX_ATTEMPTS {
          return true;
        }
      }
    }

    /**
     * get_diskinfo and kernel_load: when no first read fails the 79 sectors from the third on land in order from 0x8000
     * on, whatever the drive. After a failed one the loader hangs, or goes on with memory as it was where that sector
     * belongs.
     */
    method LoadKernel() returns (hung: bool)
      requires Valid() && currentSector == FIRST_SECTOR && currentOffset == FIRST_OFFSET
      modifies this, memory
      ensures AllRead(bios, old(calls), LOADED) ==>
        && !hung
        && memory[..] == old(memory[..])[..LOAD_ADDRESS]
                         + disk[FIRST_SECTOR * SECTOR_BYTES..(FIRST_SECTOR + LOADED) * SECTOR_BYTES]
                         + old(memory[..])[LOAD_ADDRESS + LOADED * SECTOR_BYTES..]
      ensures !AllRead(bios, old(calls), LOADED) && !hung ==>
        exists k :: 0 <= k < LOADED && Skipped(bios, old(calls), k, old(memory[..]), memory[..])
    {
      hide Loading, AllRead, Skipped, Loaded, WithSector;
      hung := false;
      GetDiskInfo();
      ghost var m, n, c, lost := memory[..], 0, calls, -1;
      LoadingStarts(bios, c, m, disk);
      while true
        invariant n < LOADED && currentSector == FIRST_SECTOR + n && currentOffset == FIRST_OFFSET + SECTOR_UNITS * n
        invariant g == drive
        invariant Loading(bios, c, calls, m, disk, n, lost, memory[..])
        decreases LOADED - n
      {
        ghost var before, called := memory[..], calls;
        hung := LoadOne(n);
        lost := LoadingStep(bios, c, called, calls, m, disk, n, lost, before, memory[..]);
        if hung {
          LoadingEnds(bios, c, calls, m, disk, n + 1, lost, memory[..]);
          return;
        }
        n := n + 1;
        currentOffset := (currentOffset + SECTOR_UNITS) % 0x1_0000;
        currentSector := (currentSector + 1) % 0x1_0000;
        if currentSector > TOTAL_SECTORS {
          LoadingEnds(bios, c, calls, m, disk, n, lost, memory[..]);
          return;
        }
      }
    }

    /** One turn of the loop: convert, and read one sector. */
    method LoadOne(ghost n: nat) returns (hung: bool)
      requires Valid() && n < LOADED && g == drive
      requires currentSector == FIRST_SECTOR + n && currentOffset == FIRST_OFFSET + SECTOR_UNITS * n
      modifies `sector, `head, `cyl, `calls, memory
      ensures !Fails(bios, old(calls), READ) ==>
        && !hung && calls == old(calls) + 1
        && memory[..] == WithSector(old(memory[..]), LOAD_ADDRESS + n * SECTOR_BYTES,
                                    disk, (FIRST_SECTOR + n) * SECTOR_BYTES, SECTOR_BYTES)
      ensures Fails(bios, old(calls), READ) ==> memory[..] == old(memory[..])
    {
      var es := currentOffset;
      Convert(currentSector);
      KernelSectorsFit(currentSector, g);
      ChsRoundTrip(currentSector, g);
      hung := ReadDisk(es, Chs(cyl, head, sector));
    }
  }

  /** The first read of sector k of the kernel failed, and memory is as it was where the sector belongs. */
  ghost predicate Skipped(bios: Failures, c: nat, k: nat, m: seq<byte>, m': seq<byte>) {
    var to := LOAD_ADDRESS + k * SECTOR_BYTES;
    && Fails(bios, c + k, READ) && AllRead(bios, c, k)
    && to + SECTOR_BYTES <= |m| == |m'| && m'[to..to + SECTOR_BYTES] == m[to..to + SECTOR_BYTES]
  }

  /** After n sectors, of which sector lost was the first whose read failed; -1 when none has. */
  ghost predicate Loading(bios: Failures, c: nat, calls: nat, m: seq<byte>, disk: seq<byte>, n: nat, lost: int,
                          now: seq<byte>)
    requires n <= LOADED && LOAD_ADDRESS + n * SECTOR_BYTES <= |m| && (FIRST_SECTOR + n) * SECTOR_BYTES <= |disk|
  {
    && lost < n && |now| == |m|
    && if lost < 0 then now == Loaded(m, disk, n) && calls == c + n && AllRead(bios, c, n)
       else Skipped(bios, c, lost, m, now)
  }

  lemma LoadingStarts(bios: Failures, c: nat, m: seq<byte>, disk: seq<byte>)
    requires LOAD_ADDRESS <= |m| && FIRST_SECTOR * SECTOR_BYTES <= |disk|
    ensures Loading(bios, c, c, m, disk, 0, -1, m)
  {
    LoadedNone(m, disk);
  }

  lemma LoadingStep(bios: Failures, c: nat, calls: nat, calls': nat, m: seq<byte>, disk: seq<byte>, n: nat, lost: int,
                    before: seq<byte>, after: seq<byte>) returns (first: int)
    requires n < LOADED && LOAD_ADDRESS + LOADED * SECTOR_BYTES <= |m| && (TOTAL_SECTORS + 1) * SECTOR_BYTES <= |disk|
    requires Loading(bios, c, calls, m, disk, n, lost, before) && |before| == |after| == |m|
    requires if Fails(bios, calls, READ) then after == before
      else
        && calls' == calls + 1
        && after == WithSector(before, LOAD_ADDRESS + n * SECTOR_BYTES,
                               disk, (FIRST_SECTOR + n) * SECTOR_BYTES, SECTOR_BYTES)
    ensures Loading(bios, c, calls', m, disk, n + 1, first, after)
    ensures first < 0 ==> lost < 0 && !Fails(bios, calls, READ)
  {
    hide WithSector, Loaded, Skipped;
    first := if lost < 0 && Fails(bios, calls, READ) then n else lost;
    if first < 0 {
      LoadedStep(m, disk, n, before, after);
    } else if lost < 0 {
      SkippedNow(bios, c, n, m, disk, before);
    } else if !Fails(bios, calls, READ) {
      SkippedStill(bios, c, lost, n, m, disk, before, after);
    }
  }

  lemma SkippedNow(bios: Failures, c: nat, n: nat, m: seq<byte>, disk: seq<byte>, before: seq<byte>)
    requires n < LOADED && LOAD_ADDRESS + LOADED * SECTOR_BYTES <= |m| && (TOTAL_SECTORS + 1) * SECTOR_BYTES <= |disk|
    requires before == Loaded(m, disk, n) && Fails(bios, c + n, READ) && AllRead(bios, c, n)
    ensures Skipped(bios, c, n, m, before)
  {
    var to := LOAD_ADDRESS + n * SECTOR_BYTES;
    assert |before| == |m|;
    assert before[to..to + SECTOR_BYTES] == m[to..][..SECTOR_BYTES];
  }

  lemma SkippedStill(bios: Failures, c: nat, k: nat, n: nat, m: seq<byte>, disk: seq<byte>,
                     before: seq<byte>, after: seq<byte>)
    requires k < n < LOADED
    requires LOAD_ADDRESS + LOADED * SECTOR_BYTES <= |m| && (TOTAL_SECTORS + 1) * SECTOR_BYTES <= |disk|
    requires Skipped(bios, c, k, m, before)
    requires after == WithSector(before, LOAD_ADDRESS + n * SECTOR_BYTES,
                                 disk, (FIRST_SECTOR + n) * SECTOR_BYTES, SECTOR_BYTES)
    ensures Skipped(bios, c, k, m, after)
  {
    var to := LOAD_ADDRESS + k * SECTOR_BYTES;
    assert |after| == |before|;
    assert after[to..to + SECTOR_BYTES] == before[to..to + SECTOR_BYTES];
  }

  lemma LoadingEnds(bios: Failures, c: nat, calls: nat, m: seq<byte>, disk: seq<byte>, n: nat, lost: int,
                    now: seq<byte>)
    requires n <= LOADED && LOAD_ADDRESS + LOADED * SECTOR_BYTES <= |m| && (TOTAL_SECTORS + 1) * SECTOR_BYTES <= |disk|
    requires Loading(bios, c, calls, m, disk, n, lost, now)
    ensures lost < 0 && n == LOADED ==>
      && AllRead(bios, c, LOADED)
      && now == m[..LOAD_ADDRESS]
                + disk[FIRST_SECTOR * SECTOR_BYTES..(FIRST_SECTOR + LOADED) * SECTOR_BYTES]
                + m[LOAD_ADDRESS + LOADED * SECTOR_BYTES..]
    ensures 0 <= lost ==> !AllRead(bios, c, LOADED) && exists k :: 0 <= k < LOADED && Skipped(bios, c, k, m, now)
  {
    if 0 <= lost {
      assert Skipped(bios, c, lost, m, now) && Fails(bios, c + lost, READ);
    }
  }

  /** Memory after the first n sectors of the kernel. */
  function Loaded(m: seq<byte>, disk: seq<byte>, n: nat): seq<byte>
    requires n <= LOADED && LOAD_ADDRESS + n * SECTOR_BYTES <= |m| && (FIRST_SECTOR + n) * SECTOR_BYTES <= |disk|
  {
    m[..LOAD_ADDRESS] + disk[FIRST_SECTOR * SECTOR_BYTES..(FIRST_SECTOR + n) * SECTOR_BYTES]
    + m[LOAD_ADDRESS + n * SECTOR_BYTES..]
  }

  /** Memory m with n bytes of the disk laid over it at to. */
  function WithSector(m: seq<byte>, to: nat, disk: seq<byte>, from: nat, n: nat): seq<byte>
    requires to + n <= |m| && from + n <= |disk|
  {
    m[..to] + disk[from..from + n] + m[to + n..]
  }

  lemma SectorNone(m: seq<byte>, to: nat, disk: seq<byte>, from: nat)
    requires to <= |m| && from <= |disk|
    ensures WithSector(m, to, disk, from, 0) == m
  {
  }

  lemma SectorStep(m: seq<byte>, to: nat, disk: seq<byte>, from: nat, n: nat)
    requires to + n < |m| && from + n < |disk|
    ensures |WithSector(m, to, disk, from, n)| == |m|
    ensures WithSector(m, to, disk, from, n)[to + n := disk[from + n]] == WithSector(m, to, disk, from, n + 1)
  {
  }

  lemma LoadedNone(m: seq<byte>, disk: seq<byte>)
    requires LOAD_ADDRESS <= |m| && FIRST_SECTOR * SECTOR_BYTES <= |disk|
    ensures Loaded(m, disk, 0) == m
  {
  }

  lemma LoadedStep(m: seq<byte>, disk: seq<byte>, n: nat, before: seq<byte>, after: seq<byte>)
    requires n < LOADED && LOAD_ADDRESS + LOADED * SECTOR_BYTES <= |m| && (TOTAL_SECTORS + 1) * SECTOR_BYTES <= |disk|
    requires before == Loaded(m, disk, n) && |before| == |m|
    requires var to, from := LOAD_ADDRESS + n * SECTOR_BYTES, (FIRST_SECTOR + n) * SECTOR_BYTES;
      after == WithSector(before, to, disk, from, SECTOR_BYTES)
    ensures after == Loaded(m, disk, n + 1)
  {
  }
}
