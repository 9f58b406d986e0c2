/**
 `mpu6050_write_memory_block`: loading a byte image into the DMP's memory
 through the BANK_SEL / MEM_START_ADDR / MEM_R_W register window, in chunks
 of at most 16 bytes that never cross a 256-byte bank, with an optional
 read-back check of every chunk.

 Bank and address are the driver's `uint8_t` variables, kept here as
 integers below 256 with their wrap-around written out.
 */
module MemoryBlock {
  import opened Bytes

  const DMP_MEMORY_BANKS: nat := 8
  const DMP_MEMORY_BANK_SIZE: nat := 256
  const DMP_MEMORY_CHUNK_SIZE: nat := 16
  const DMP_CODE_SIZE: nat := 1929
  const WIRE_BUFFER_LENGTH: nat := 32

  /** BANK_SEL keeps five bank bits, so the memory window reaches 32 banks. */
  const SELECTABLE_BANKS: nat := 32
  const MEMORY_SIZE: nat := SELECTABLE_BANKS * DMP_MEMORY_BANK_SIZE

  /** The DMP memory, addressed linearly as `bank * 256 + address`. */
  type Memory = m: seq<Byte> | |m| == MEMORY_SIZE witness seq(MEMORY_SIZE, _ => 0)

  /**
   The sensor side of the memory window: the memory, the bank BANK_SEL
   selects and the address MEM_START_ADDR holds.
   */
  datatype Dmp = Dmp(mem: Memory, bankSel: nat, startAddr: nat)

  predicate ValidDmp(d: Dmp)
  {
    d.bankSel < SELECTABLE_BANKS && d.startAddr < DMP_MEMORY_BANK_SIZE
  }

  /**
   `mpu6050_set_memory_bank(bank, false, false)`: the bank register keeps
   the bank number modulo 32 (`RegisterOps.BankSelSelectsBankMod32`).
   */
  function SelectBank(d: Dmp, bank: nat): (r: Dmp)
    ensures r.bankSel == bank % SELECTABLE_BANKS && r.mem == d.mem && r.startAddr == d.startAddr
  {
    d.(bankSel := bank % SELECTABLE_BANKS)
  }

  /** `mpu6050_set_memory_start_address` */
  function SelectAddress(d: Dmp, address: nat): (r: Dmp)
    requires address < DMP_MEMORY_BANK_SIZE
    ensures r.startAddr == address && r.mem == d.mem && r.bankSel == d.bankSel
  {
    d.(startAddr := address)
  }

  /** The linear position of the selected address. */
  function Cursor(d: Dmp): nat
  {
    d.bankSel * DMP_MEMORY_BANK_SIZE + d.startAddr
  }

  /** `bytes` stored from position `p` on; everything else kept. */
  function Store(mem: Memory, p: nat, bytes: seq<Byte>): (r: Memory)
    requires p + |bytes| <= MEMORY_SIZE
    ensures forall t :: 0 <= t < |bytes| ==> r[p + t] == bytes[t]
    ensures forall q :: 0 <= q < MEMORY_SIZE && !(p <= q < p + |bytes|) ==> r[q] == mem[q]
  {
    mem[..p] + bytes + mem[p + |bytes|..]
  }

  /**
   A MEM_R_W burst write of `bytes` at the selected bank and address, when
   the transfer lands (`landed`); the driver ignores the status, so a lost
   transfer simply leaves the memory as it was.
   */
  function WriteMem(d: Dmp, bytes: seq<Byte>, landed: bool): (r: Dmp)
    requires ValidDmp(d) && d.startAddr + |bytes| <= DMP_MEMORY_BANK_SIZE
    ensures r.bankSel == d.bankSel && r.startAddr == d.startAddr
    ensures landed ==> r.mem[Cursor(d)..Cursor(d) + |bytes|] == bytes
    ensures !landed ==> r == d
  {
    if landed then
      var m := Store(d.mem, Cursor(d), bytes);
      assert m[Cursor(d)..Cursor(d) + |bytes|] == bytes;
      d.(mem := m)
    else d
  }

  /** A MEM_R_W burst read of `n` bytes at the selected bank and address. */
  function ReadMem(d: Dmp, n: nat): (r: seq<Byte>)
    requires ValidDmp(d) && d.startAddr + n <= DMP_MEMORY_BANK_SIZE
    ensures |r| == n
  {
    d.mem[Cursor(d)..Cursor(d) + n]
  }

  /** One MEM_R_W write: the bank and address it was sent to, and which bytes of the image. */
  datatype Chunk = Chunk(bank: nat, address: nat, offset: nat, len: nat)

  /**
   The chunk size the loop chooses: 16, cut back so as not to pass the end
   of the data, then cut back so as not to pass the end of the bank.
   */
  function ChunkLen(n: nat, offset: nat, address: nat): (c: nat)
    requires offset < n && address < DMP_MEMORY_BANK_SIZE
    ensures 1 <= c <= DMP_MEMORY_CHUNK_SIZE
    ensures offset + c <= n && address + c <= DMP_MEMORY_BANK_SIZE
    ensures c == DMP_MEMORY_CHUNK_SIZE || offset + c == n || address + c == DMP_MEMORY_BANK_SIZE
  {
    var c0 := DMP_MEMORY_CHUNK_SIZE;
    var c1 := if offset + c0 > n then n - offset else c0;
    if c1 > DMP_MEMORY_BANK_SIZE - address then DMP_MEMORY_BANK_SIZE - address else c1
  }

  /** The `uint8_t` bank and address as one 16-bit linear position. */
  function Linear(bank: nat, address: nat): nat
  {
    bank * DMP_MEMORY_BANK_SIZE + address
  }

  /**
   A chunk of an `n`-byte image started at linear position `start`: its
   size is the one the loop chooses, it lies inside the image and inside one
   bank, and its bank and address are the start advanced by its offset,
   wrapping at 16 bits as the `uint8_t` pair does.
   */
  predicate ChunkOk(c: Chunk, n: nat, start: nat)
  {
    && c.bank < 256 && c.address < DMP_MEMORY_BANK_SIZE && c.offset < n
    && c.len == ChunkLen(n, c.offset, c.address)
    && Linear(c.bank, c.address) == (start + c.offset) % 0x1_0000
  }

  /**
   `b` follows `a`: it starts where `a` ends, its address is `a`'s plus
   `a`'s size modulo 256, and the bank advances exactly when that address
   wrapped to 0.
   */
  predicate Follows(a: Chunk, b: Chunk)
  {
    && b.offset == a.offset + a.len
    && b.address == (a.address + a.len) % DMP_MEMORY_BANK_SIZE
    && b.bank == if b.address == 0 then (a.bank + 1) % 256 else a.bank
  }

  /** The chunks written for an `n`-byte image at `bank`, `address`, in order. */
  predicate Plan(chunks: seq<Chunk>, n: nat, bank: nat, address: nat)
  {
    && (|chunks| > 0 ==> chunks[0].bank == bank && chunks[0].address == address && chunks[0].offset == 0)
    && (forall k :: 0 <= k < |chunks| ==> ChunkOk(chunks[k], n, Linear(bank, address)))
    && (forall k :: 0 <= k < |chunks| - 1 ==> Follows(chunks[k], chunks[k + 1]))
  }

  /** The chunks cover the whole image: none for an empty one, else the last ends at its end. */
  predicate Covers(chunks: seq<Chunk>, n: nat)
  {
    if |chunks| == 0 then n == 0 else chunks[|chunks| - 1].offset + chunks[|chunks| - 1].len == n
  }

  /** Where the image lands in memory: image byte `j` at linear position `(start + j) mod 8192`. */
  function Slot(start: nat, j: nat): nat
  {
    (start + j) % MEMORY_SIZE
  }

  /**
   The first `i` bytes of the image are in memory from `start` on (modulo
   the memory size) and every other position holds what it held in `mem0`.
   */
  ghost predicate Holds(mem: Memory, mem0: Memory, start: nat, data: seq<Byte>, i: nat)
    requires i <= |data| <= MEMORY_SIZE
  {
    forall p :: 0 <= p < MEMORY_SIZE ==>
      mem[p] == if (p - start) % MEMORY_SIZE < i then data[(p - start) % MEMORY_SIZE] else mem0[p]
  }

  /** Every write so far landed, or the read-back check was on. */
  ghost predicate Trusted(verify: bool, lost: set<nat>, count: nat)
  {
    verify || forall k :: 0 <= k < count ==> k !in lost
  }

  /**
   Where the loop stands: the chunks so far follow the plan and end at byte
   `i`, and `bank`, `address` are where the next chunk goes.
   */
  ghost predicate Position(n: nat, bank0: nat, address0: nat, i: nat, bank: nat, address: nat, chunks: seq<Chunk>)
  {
    && n < 0x1_0000 && bank0 < 256 && address0 < DMP_MEMORY_BANK_SIZE
    && i <= n && bank < 256 && address < DMP_MEMORY_BANK_SIZE
    && Plan(chunks, n, bank0, address0)
    && (|chunks| == 0 ==> i == 0 && bank == bank0 && address == address0)
    && (|chunks| > 0 ==> chunks[|chunks| - 1].offset + chunks[|chunks| - 1].len == i)
    && (|chunks| > 0 && i < n ==> Follows(chunks[|chunks| - 1], Chunk(bank, address, i, 0)))
    && (i < n ==> Linear(bank, address) == (Linear(bank0, address0) + i) % 0x1_0000)
  }

  /** While bytes remain, BANK_SEL and MEM_START_ADDR select the next chunk's bank and address. */
  predicate Selected(d: Dmp, n: nat, i: nat, bank: nat, address: nat)
  {
    ValidDmp(d) && (i < n ==> d.bankSel == bank % SELECTABLE_BANKS && d.startAddr == address)
  }

  /** When every write so far can be trusted, the memory holds the first `i` image bytes. */
  ghost predicate Loaded(d0: Dmp, data: seq<Byte>, start: nat, verify: bool, lost: set<nat>, i: nat, d: Dmp, count: nat)
    requires i <= |data|
  {
    |data| <= MEMORY_SIZE && Trusted(verify, lost, count) ==> Holds(d.mem, d0.mem, start, data, i)
  }

  /**
   Sizing the next chunk as the loop does and advancing bank and address
   past it keeps to the plan; the registers then address the image's slot
   for byte `i`.
   */
  lemma NextPosition(n: nat, bank0: nat, address0: nat, i: nat, bank: nat, address: nat, chunks: seq<Chunk>,
                      c: nat, bank': nat, address': nat)
    requires Position(n, bank0, address0, i, bank, address, chunks) && i < n
    requires c == ChunkLen(n, i, address) && address' == (address + c) % DMP_MEMORY_BANK_SIZE
    requires bank' == if i + c < n && address' == 0 then (bank + 1) % 256 else bank
    ensures Plan(chunks + [Chunk(bank, address, i, c)], n, bank0, address0)
    ensures Position(n, bank0, address0, i + c, bank', address', chunks + [Chunk(bank, address, i, c)])
    ensures (bank % SELECTABLE_BANKS) * DMP_MEMORY_BANK_SIZE + address == Slot(Linear(bank0, address0), i)
  {
    var chunk := Chunk(bank, address, i, c);
    assert ChunkOk(chunk, n, Linear(bank0, address0));
    PlanExtends(chunks, chunk, n, bank0, address0);
    AdvanceLinear(Linear(bank0, address0), i, bank, address, c);
    SlotOfCursor(Linear(bank0, address0), i, bank, address);
  }

  /** A plan extended by a chunk that conforms and follows its last chunk is still a plan. */
  lemma PlanExtends(chunks: seq<Chunk>, chunk: Chunk, n: nat, bank: nat, address: nat)
    requires Plan(chunks, n, bank, address) && ChunkOk(chunk, n, Linear(bank, address))
    requires |chunks| == 0 ==> chunk.bank == bank && chunk.address == address && chunk.offset == 0
    requires |chunks| > 0 ==> Follows(chunks[|chunks| - 1], chunk)
    ensures Plan(chunks + [chunk], n, bank, address)
  {
    var s := chunks + [chunk];
    forall k | 0 <= k < |s|
      ensures ChunkOk(s[k], n, Linear(bank, address))
    {
      if k < |chunks| {
        assert s[k] == chunks[k];
      }
    }
    forall k | 0 <= k < |s| - 1
      ensures Follows(s[k], s[k + 1])
    {
      assert s[k] == chunks[k];
      if k + 1 < |chunks| {
        assert s[k + 1] == chunks[k + 1];
      }
    }
  }

  /**
   `mpu6050_write_memory_block(data, |data|, bank, address, verify, _)`.
   Chunk `k`'s write is lost when `k` is in `lost`. The result is false
   only when verifying and a chunk read back differently from what was
   sent; then no further chunk is written.
   */
  method WriteMemoryBlock(d0: Dmp, data: seq<Byte>, bank0: nat, address0: nat, verify: bool, lost: set<nat>)
    returns (ok: bool, d: Dmp, chunks: seq<Chunk>)
    requires ValidDmp(d0)
    requires |data| < 0x1_0000 && bank0 < 256 && address0 < DMP_MEMORY_BANK_SIZE
    ensures Plan(chunks, |data|, bank0, address0)
    ensures ok ==> Covers(chunks, |data|)
    ensures !verify ==> ok
    ensures !ok ==> verify && |chunks| > 0 && Mismatch(d.mem, chunks[|chunks| - 1], data)
    ensures ok && |data| <= MEMORY_SIZE && Trusted(verify, lost, |chunks|) ==>
      Holds(d.mem, d0.mem, Linear(bank0, address0), data, |data|)
  {
    d := SelectAddress(SelectBank(d0, bank0), address0);
    var i: nat := 0;
    var bank := bank0;
    var address := address0;
    chunks := [];
    assert (Linear(bank0, address0) + 0) % 0x1_0000 == Linear(bank0, address0);
    assert |data| <= MEMORY_SIZE ==> Holds(d.mem, d0.mem, Linear(bank0, address0), data, 0);
    while i < |data|
      invariant Position(|data|, bank0, address0, i, bank, address, chunks)
      invariant Selected(d, |data|, i, bank, address)
      invariant Loaded(d0, data, Linear(bank0, address0), verify, lost, i, d, |chunks|)
      decreases |data| - i
    {
      var failed;
      failed, i, bank, address, d, chunks := WriteChunk(d0, data, bank0, address0, verify, lost, i, bank, address, d, chunks);
      if failed {
        return false, d, chunks;
      }
    }
    ok := true;
  }

  /** Chunk `c` of the image reads back differently from the bytes sent for it. */
  ghost predicate Mismatch(mem: Memory, c: Chunk, data: seq<Byte>)
  {
    var p := (c.bank % SELECTABLE_BANKS) * DMP_MEMORY_BANK_SIZE + c.address;
    c.offset + c.len <= |data| && p + c.len <= MEMORY_SIZE && mem[p..p + c.len] != data[c.offset..c.offset + c.len]
  }

  /** One pass of the loop: size, send and (optionally) check a chunk, then advance bank and address. */
  method WriteChunk(ghost d0: Dmp, data: seq<Byte>, ghost bank0: nat, ghost address0: nat, verify: bool, lost: set<nat>,
                    i: nat, bank: nat, address: nat, d: Dmp, chunks: seq<Chunk>)
    returns (failed: bool, i': nat, bank': nat, address': nat, d': Dmp, chunks': seq<Chunk>)
    requires Position(|data|, bank0, address0, i, bank, address, chunks) && i < |data|
    requires Selected(d, |data|, i, bank, address)
    requires Loaded(d0, data, Linear(bank0, address0), verify, lost, i, d, |chunks|)
    ensures failed ==> verify && Plan(chunks', |data|, bank0, address0) && |chunks'| > 0
    ensures failed ==> Mismatch(d'.mem, chunks'[|chunks'| - 1], data)
    ensures !failed ==> i' > i && Position(|data|, bank0, address0, i', bank', address', chunks')
    ensures !failed ==> Selected(d', |data|, i', bank', address')
    ensures !failed ==> Loaded(d0, data, Linear(bank0, address0), verify, lost, i', d', |chunks'|)
  {
    var c := ChunkLen(|data|, i, address);
    var chunk := Chunk(bank, address, i, c);
    chunks' := chunks + [chunk];
    i' := i + c;
    address' := (address + c) % DMP_MEMORY_BANK_SIZE;
    bank' := if i' < |data| && address' == 0 then (bank + 1) % 256 else bank;
    NextPosition(|data|, bank0, address0, i, bank, address, chunks, c, bank', address');
    failed, d' := SendChunk(d0, data, Linear(bank0, address0), verify, lost, chunk, d, |chunks|);
    if failed {
      assert chunks'[|chunks'| - 1] == chunk;
      return true, i, bank, address, d', chunks';
    }
    if i' < |data| {
      d' := SelectAddress(SelectBank(d', bank'), address');
    }
  }

  /**
   Writing image bytes `[i, i + c)` at the selected bank and address, then,
   when verifying, reselecting them and reading the bytes back.
   */
  method SendChunk(ghost d0: Dmp, data: seq<Byte>, ghost start: nat, verify: bool, lost: set<nat>,
                   chunk: Chunk, d: Dmp, count: nat)
    returns (failed: bool, d': Dmp)
    requires ValidDmp(d) && chunk.offset + chunk.len <= |data| && d.startAddr + chunk.len <= DMP_MEMORY_BANK_SIZE
    requires d.bankSel == chunk.bank % SELECTABLE_BANKS && d.startAddr == chunk.address
    requires Cursor(d) == Slot(start, chunk.offset)
    requires Loaded(d0, data, start, verify, lost, chunk.offset, d, count)
    ensures ValidDmp(d') && d'.bankSel == d.bankSel && d'.startAddr == d.startAddr
    ensures failed ==> verify && Mismatch(d'.mem, chunk, data)
    ensures !failed ==> Loaded(d0, data, start, verify, lost, chunk.offset + chunk.len, d', count + 1)
  {
    var i, c := chunk.offset, chunk.len;
    var p := Cursor(d);
    d' := WriteMem(d, data[i..i + c], count !in lost);
    if verify {
      var back := ReadMem(d', c);
      if back != data[i..i + c] {
        return true, d';
      }
    }
    failed := false;
    if |data| <= MEMORY_SIZE && Trusted(verify, lost, count + 1) {
      assert Trusted(verify, lost, count);
      assert d'.mem[p..p + c] == data[i..i + c];
      HoldsStep(d.mem, d'.mem, d0.mem, start, data, i, c, p);
    }
  }

  /**
   The selected bank and address are the image's slot for byte `i`: bank
   modulo 32 times 256 plus address is the 16-bit position modulo 8192.
   */
  lemma SlotOfCursor(start: nat, i: nat, bank: nat, address: nat)
    requires bank < 256 && address < DMP_MEMORY_BANK_SIZE
    requires Linear(bank, address) == (start + i) % 0x1_0000
    ensures (bank % SELECTABLE_BANKS) * DMP_MEMORY_BANK_SIZE + address == Slot(start, i)
  {
    var q := bank / SELECTABLE_BANKS;
    assert bank == q * SELECTABLE_BANKS + bank % SELECTABLE_BANKS;
    assert Linear(bank, address) == q * MEMORY_SIZE + (bank % SELECTABLE_BANKS) * DMP_MEMORY_BANK_SIZE + address;
    var r := (bank % SELECTABLE_BANKS) * DMP_MEMORY_BANK_SIZE + address;
    ModOfSplit(q, r, Linear(bank, address));
    ModOfMod(start + i);
  }

  /** Reducing modulo 2^16 first does not change the remainder modulo 8192. */
  lemma ModOfMod(x: nat)
    ensures x % 0x1_0000 % MEMORY_SIZE == x % MEMORY_SIZE
  {
    var q := x / 0x1_0000;
    assert x == q * 0x1_0000 + x % 0x1_0000;
    ModOfSum(q * 8, x % 0x1_0000);
  }

  lemma ModOfSum(q: nat, r: nat)
    ensures (q * MEMORY_SIZE + r) % MEMORY_SIZE == r % MEMORY_SIZE
  {
    var s := r % MEMORY_SIZE;
    var t := r / MEMORY_SIZE;
    assert r == t * MEMORY_SIZE + s;
    assert q * MEMORY_SIZE + r == (q + t) * MEMORY_SIZE + s;
    ModOfSplit(q + t, s, q * MEMORY_SIZE + r);
  }

  lemma ModOfSplit(q: nat, s: nat, v: nat)
    requires s < MEMORY_SIZE && v == q * MEMORY_SIZE + s
    ensures v % MEMORY_SIZE == s
  {
  }

  /**
   Advancing the `uint8_t` address by a chunk that stays inside its bank,
   and the bank by one when the address wraps, advances the 16-bit linear
   position by the chunk size.
   */
  lemma AdvanceLinear(start: nat, i: nat, bank: nat, address: nat, c: nat)
    requires bank < 256 && address < DMP_MEMORY_BANK_SIZE && 1 <= c && address + c <= DMP_MEMORY_BANK_SIZE
    requires Linear(bank, address) == (start + i) % 0x1_0000
    ensures var a := (address + c) % DMP_MEMORY_BANK_SIZE;
      var b := if a == 0 then (bank + 1) % 256 else bank;
      Linear(b, a) == (start + i + c) % 0x1_0000
  {
    var q := (start + i) / 0x1_0000;
    assert start + i == q * 0x1_0000 + Linear(bank, address);
    var a := (address + c) % DMP_MEMORY_BANK_SIZE;
    var b := if a == 0 then (bank + 1) % 256 else bank;
    if address + c < DMP_MEMORY_BANK_SIZE {
      assert a == address + c && b == bank;
      Mod16Split(q, Linear(b, a), start + i + c);
    } else if bank < 255 {
      assert a == 0 && b == bank + 1;
      Mod16Split(q, Linear(b, a), start + i + c);
    } else {
      assert a == 0 && b == 0;
      Mod16Split(q + 1, 0, start + i + c);
    }
  }

  lemma Mod16Split(q: nat, r: nat, v: nat)
    requires r < 0x1_0000 && v == q * 0x1_0000 + r
    ensures v % 0x1_0000 == r
  {
  }

  /**
   Writing the next `c` image bytes at their slot extends what the memory
   holds from `i` bytes to `i + c`.
   */
  lemma HoldsStep(mem: Memory, mem': Memory, mem0: Memory, start: nat, data: seq<Byte>, i: nat, c: nat, p: nat)
    requires i + c <= |data| <= MEMORY_SIZE
    requires Holds(mem, mem0, start, data, i)
    requires p == Slot(start, i) && p + c <= MEMORY_SIZE
    requires mem'[p..p + c] == data[i..i + c]
    requires forall q :: 0 <= q < MEMORY_SIZE && !(p <= q < p + c) ==> mem'[q] == mem[q]
    ensures Holds(mem', mem0, start, data, i + c)
  {
    forall q | 0 <= q < MEMORY_SIZE
      ensures mem'[q] == if (q - start) % MEMORY_SIZE < i + c then data[(q - start) % MEMORY_SIZE] else mem0[q]
    {
      SlotOffset(start, i, c, p, q);
      if p <= q < p + c {
        assert mem'[q] == mem'[p..p + c][q - p] == data[i..i + c][q - p];
      }
    }
  }

  /**
   The image offset of a memory position `q`: inside the chunk's slot
   `[p, p + c)` it is `i + (q - p)`; outside, it is not in `[i, i + c)`.
   */
  lemma SlotOffset(start: nat, i: nat, c: nat, p: nat, q: nat)
    requires i + c <= MEMORY_SIZE && p == Slot(start, i) && p + c <= MEMORY_SIZE && q < MEMORY_SIZE
    ensures p <= q < p + c ==> (q - start) % MEMORY_SIZE == i + (q - p)
    ensures !(p <= q < p + c) ==> !(i <= (q - start) % MEMORY_SIZE < i + c)
  {
    var k := (start + i) / MEMORY_SIZE;
    assert start + i == k * MEMORY_SIZE + p;
    var d := (q - start) % MEMORY_SIZE;
    var m := (q - start) / MEMORY_SIZE;
    assert q - start == m * MEMORY_SIZE + d;
    // q - start == (q - p) + i - k * MEMORY_SIZE, so d and i + (q - p) differ by a multiple of MEMORY_SIZE.
    assert d - (i + (q - p)) == (-k - m) * MEMORY_SIZE;
    MultipleInRange(d - (i + (q - p)), -k - m);
  }

  /** A multiple of the memory size strictly between minus and plus that size is zero. */
  lemma MultipleInRange(x: int, n: int)
    requires x == n * MEMORY_SIZE
    ensures 0 < x + MEMORY_SIZE && x < MEMORY_SIZE ==> x == 0
  {
    if n >= 1 {
      assert x >= MEMORY_SIZE;
    } else if n <= -1 {
      assert x + MEMORY_SIZE <= 0;
    }
  }

  /**
   Loading the DMP firmware image from bank 0, address 0 stays inside the
   eight banks the firmware occupies, and the chunk constants fit the
   `uint8_t` lengths they travel in.
   */
  lemma DmpImageFits(chunks: seq<Chunk>)
    requires Plan(chunks, DMP_CODE_SIZE, 0, 0)
    ensures forall k :: 0 <= k < |chunks| ==> chunks[k].bank < DMP_MEMORY_BANKS
    ensures DMP_CODE_SIZE <= DMP_MEMORY_BANKS * DMP_MEMORY_BANK_SIZE
    ensures DMP_MEMORY_CHUNK_SIZE <= 255 && WIRE_BUFFER_LENGTH <= 255
    ensures DMP_MEMORY_BANK_SIZE % DMP_MEMORY_CHUNK_SIZE == 0
  {
    forall k | 0 <= k < |chunks|
      ensures chunks[k].bank < DMP_MEMORY_BANKS
    {
      assert ChunkOk(chunks[k], DMP_CODE_SIZE, 0);
      Mod16Split(0, chunks[k].offset, chunks[k].offset);
      assert Linear(chunks[k].bank, chunks[k].address) == chunks[k].offset;
    }
  }
}
