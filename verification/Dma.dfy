/** The two data transfers of io.c: page by page through kernel mappings, and by a DMA engine that
    joins PRP entries whose pages are adjacent.  Both are proved to move exactly the same bytes. */
module Dma {
  import opened Arith

  const PAGE_SIZE: nat := 4096

  /** A contiguous copy between `len` host bytes and `len` device bytes. */
  datatype Copy = Copy(host: nat, dev: nat, len: nat)

  /** A read or write of `length` bytes at device offset `offset`; `list` is the PRP list that prp2 points to. */
  datatype Command = Command(prp1: nat, prp2: nat, list: seq<nat>, offset: nat, length: nat)
  {
    /** Bytes that fit in the page of the first entry. */
    function First(): nat { PAGE_SIZE - prp1 % PAGE_SIZE }

    /** Number of PRP entries that the transfer uses. */
    function Entries(): nat { if length <= First() then 1 else 1 + (length - First() + PAGE_SIZE - 1) / PAGE_SIZE }

    /** Bytes covered by the first `k` entries. */
    function Covered(k: nat): nat {
      if k == 0 then 0 else if First() + (k - 1) * PAGE_SIZE <= length then First() + (k - 1) * PAGE_SIZE else length
    }

    /** Entry `k`, counted from 0: prp1, then prp2 itself if it is the last one, else the PRP list. */
    function Prp(k: nat): nat
      requires k < Entries() && (2 < Entries() ==> Entries() - 1 <= |list|)
    {
      if k == 0 then prp1 else if Entries() == 2 then prp2 else list[k - 1]
    }

    /** Section 4.3 of NVM Express 1.4: only the first entry may have an offset into its page. */
    ghost predicate Ok() {
      && 0 < length && (2 < Entries() ==> Entries() - 1 <= |list|)
      && forall k :: 1 <= k < Entries() ==> Prp(k) % PAGE_SIZE == 0
    }

    /** The host address of byte `i` of the transfer. */
    function Host(i: nat): nat
      requires Ok() && i < length
    {
      if i < First() then prp1 + i else Prp(1 + (i - First()) / PAGE_SIZE) + (i - First()) % PAGE_SIZE
    }

    /** The meaning of the command: byte by byte, in order. */
    ghost function Transfer(): seq<(nat, nat)>
      requires Ok()
    {
      seq(length, i requires 0 <= i < length => (Host(i), offset + i))
    }
  }

  /** Byte `i` lies on page (off + i) / 4096 of a buffer that begins `off` bytes into its first page: page 0 is named by
      prp1, page 1 by prp2 if there are no more, and page n otherwise by entry n - 1 of the list. */
  lemma HostAddress(cmd: Command, i: nat)
    requires cmd.Ok() && i < cmd.length
    ensures var off := cmd.prp1 % 4096;
      && (off + cmd.length > 8192 && off + i >= 4096 ==> (off + i) / 4096 <= |cmd.list|)
      && cmd.Host(i) == if off + i < 4096 then cmd.prp1 + i
                        else if off + cmd.length <= 8192 then cmd.prp2 + (off + i - 4096)
                        else cmd.list[(off + i) / 4096 - 1] + (off + i) % 4096
  {
  }

  /** What a list of copies moves. */
  ghost function Bytes(cs: seq<Copy>): seq<(nat, nat)> {
    if cs == [] then [] else Bytes(cs[..|cs| - 1]) + CopyBytes(cs[|cs| - 1])
  }

  ghost function CopyBytes(c: Copy): seq<(nat, nat)> {
    seq(c.len, i requires 0 <= i < c.len => (c.host + i, c.dev + i))
  }

  /** The transfer so far, extended by a copy from byte `from` on whose host bytes are the right ones. */
  lemma Extend(cmd: Command, cs: seq<Copy>, from: nat, c: Copy)
    requires cmd.Ok() && from + c.len <= cmd.length && Bytes(cs) == cmd.Transfer()[..from] && c.dev == cmd.offset + from
    requires forall j :: from <= j < from + c.len ==> cmd.Host(j) == c.host + (j - from)
    ensures Bytes(cs + [c]) == cmd.Transfer()[..from + c.len]
  {
  }

  /** The bytes of entry `k` are adjacent in host memory. */
  lemma InEntry(cmd: Command, k: nat, i: nat)
    requires cmd.Ok() && k < cmd.Entries() && cmd.Covered(k) <= i < cmd.Covered(k + 1)
    ensures i < cmd.length && cmd.Host(i) == cmd.Prp(k) + (i - cmd.Covered(k))
  {
  }

  /** The last entry covers the rest, and every entry covers something. */
  lemma CoveredSteps(cmd: Command, k: nat)
    requires 0 < cmd.length && k < cmd.Entries()
    ensures cmd.Covered(k) < cmd.Covered(k + 1) <= cmd.length
    ensures cmd.Covered(k + 1) == cmd.length <==> k + 1 == cmd.Entries()
    ensures k > 0 ==>
      cmd.Covered(k + 1) - cmd.Covered(k)
      == if cmd.length - cmd.Covered(k) < PAGE_SIZE then cmd.length - cmd.Covered(k) else PAGE_SIZE
    ensures k == 1 ==> (cmd.length - cmd.Covered(1) > PAGE_SIZE <==> cmd.Entries() > 2)
  {
  }

  /** The size of the copy for one entry, as both loops compute it. */
  function IoSize(paddr: nat, remaining: nat): nat {
    var size := Min(remaining, PAGE_SIZE);
    if paddr % PAGE_SIZE != 0 && size + paddr % PAGE_SIZE > PAGE_SIZE then PAGE_SIZE - paddr % PAGE_SIZE else size
  }

  lemma IoSizeOfEntry(cmd: Command, k: nat)
    requires cmd.Ok() && k < cmd.Entries()
    ensures cmd.Covered(k) < cmd.length
    ensures IoSize(cmd.Prp(k), cmd.length - cmd.Covered(k)) == cmd.Covered(k + 1) - cmd.Covered(k)
  {
    CoveredSteps(cmd, k);
  }

  /** __do_perform_io: one copy per PRP entry. */
  method PerformIo(cmd: Command) returns (copies: seq<Copy>)
    requires cmd.Ok()
    ensures Bytes(copies) == cmd.Transfer()
  {
    copies := [];
    var remaining, offset, k := cmd.length, cmd.offset, 0;
    assert cmd.Transfer()[..0] == [];
    while remaining > 0
      invariant 0 <= k <= cmd.Entries() && remaining == cmd.length - cmd.Covered(k)
      invariant offset == cmd.offset + cmd.Covered(k)
      invariant (remaining == 0 <==> k == cmd.Entries()) && Bytes(copies) == cmd.Transfer()[..cmd.Covered(k)]
      decreases remaining
    {
      CoveredSteps(cmd, k);
      var paddr := if k == 0 then cmd.prp1 else if k == 1 && remaining <= PAGE_SIZE then cmd.prp2 else cmd.list[k - 1];
      assert paddr == cmd.Prp(k);
      IoSizeOfEntry(cmd, k);
      var size := IoSize(paddr, remaining);
      var c := Copy(paddr, offset, size);
      forall j | cmd.Covered(k) <= j < cmd.Covered(k) + size
        ensures cmd.Host(j) == paddr + (j - cmd.Covered(k))
      {
        InEntry(cmd, k, j);
      }
      Extend(cmd, copies, cmd.Covered(k), c);
      copies := copies + [c];
      remaining := remaining - size;
      offset := offset + size;
      k := k + 1;
    }
    assert cmd.Transfer()[..cmd.length] == cmd.Transfer();
  }

  /** Entries a..b lie in adjacent pages. */
  ghost predicate Adjacent(cmd: Command, a: nat, b: nat)
    requires cmd.Ok() && b <= cmd.Entries()
  {
    forall m :: a < m < b ==> cmd.Prp(m) == cmd.Prp(m - 1) + PAGE_SIZE
  }

  lemma {:induction false} AdjacentBy(cmd: Command, a: nat, b: nat, m: nat)
    requires cmd.Ok() && b <= cmd.Entries() && Adjacent(cmd, a, b) && a <= m < b
    ensures cmd.Prp(m) == cmd.Prp(a) + (m - a) * PAGE_SIZE
  {
    if m > a { AdjacentBy(cmd, a, b, m - 1); }
  }

  /** Joined entries start on a page boundary: an entry with an offset has no adjacent successor. */
  lemma JoinedStartAligned(cmd: Command, a: nat, b: nat)
    requires cmd.Ok() && b <= cmd.Entries() && Adjacent(cmd, a, b) && a + 1 < b
    ensures cmd.Prp(a) % PAGE_SIZE == 0
  {
    assert cmd.Prp(a + 1) == cmd.Prp(a) + PAGE_SIZE;
  }

  /** The host bytes of joined entries are one stretch. */
  lemma InJoined(cmd: Command, a: nat, b: nat, i: nat)
    requires cmd.Ok() && a < b <= cmd.Entries() && Adjacent(cmd, a, b) && cmd.Covered(a) <= i < cmd.Covered(b)
    ensures i < cmd.length && cmd.Host(i) == cmd.Prp(a) + (i - cmd.Covered(a))
  {
    var m := EntryOf(cmd, a, b, i);
    InEntry(cmd, m, i);
    AdjacentBy(cmd, a, b, m);
    if m > a {
      JoinedStartAligned(cmd, a, b);
      CoveredJoined(cmd, a, m);
    }
  }

  /** The entry that holds byte `i`. */
  ghost function EntryOf(cmd: Command, a: nat, b: nat, i: nat): (m: nat)
    requires a < b && cmd.Covered(a) <= i < cmd.Covered(b)
    ensures a <= m < b && cmd.Covered(m) <= i < cmd.Covered(m + 1)
    decreases b - a
  {
    if i < cmd.Covered(a + 1) then a else EntryOf(cmd, a + 1, b, i)
  }

  lemma CoveredJoined(cmd: Command, a: nat, m: nat)
    requires 0 < cmd.length && a < m < cmd.Entries() && (a == 0 ==> cmd.prp1 % PAGE_SIZE == 0)
    ensures cmd.Covered(m) == cmd.Covered(a) + (m - a) * PAGE_SIZE
  {
  }

  /** The size that the coalescing loop computes for entries a..b. */
  lemma JoinedSize(cmd: Command, a: nat, b: nat)
    requires cmd.Ok() && a < b <= cmd.Entries() && Adjacent(cmd, a, b)
    ensures cmd.Covered(a) < cmd.length
    ensures Min(cmd.length - cmd.Covered(a), IoSize(cmd.Prp(a), cmd.length - cmd.Covered(a)) + (b - a - 1) * PAGE_SIZE)
         == cmd.Covered(b) - cmd.Covered(a)
  {
  }

  /** The first loop of __do_perform_io_using_dma: the PRP entries, from index 1 on. */
  method CollectPrps(cmd: Command, paddrList: array<nat>) returns (numPrps: nat)
    requires cmd.Ok() && cmd.Entries() < paddrList.Length
    modifies paddrList
    ensures numPrps == cmd.Entries() && forall j :: 1 <= j <= numPrps ==> paddrList[j] == cmd.Prp(j - 1)
  {
    var remaining := cmd.length;
    numPrps := 0;
    while remaining > 0
      invariant 0 <= numPrps <= cmd.Entries() && remaining == cmd.length - cmd.Covered(numPrps)
      invariant remaining == 0 <==> numPrps == cmd.Entries()
      invariant forall j :: 1 <= j <= numPrps ==> paddrList[j] == cmd.Prp(j - 1)
      decreases remaining
    {
      CoveredSteps(cmd, numPrps);
      IoSizeOfEntry(cmd, numPrps);
      numPrps := numPrps + 1;
      paddrList[numPrps] :=
        if numPrps == 1 then cmd.prp1
        else if numPrps == 2 && remaining <= PAGE_SIZE then cmd.prp2 else cmd.list[numPrps - 2];
      remaining := remaining - IoSize(paddrList[numPrps], remaining);
    }
  }

  /** One turn of the coalescing loop: the copy of entries a..b takes the transfer from Covered(a) to Covered(b). */
  lemma ExtendJoined(cmd: Command, cs: seq<Copy>, a: nat, b: nat, c: Copy)
    requires cmd.Ok() && a < b <= cmd.Entries() && Adjacent(cmd, a, b) && cmd.Covered(a) <= cmd.length
    requires Bytes(cs) == cmd.Transfer()[..cmd.Covered(a)] && c.host == cmd.Prp(a)
    requires c.dev == cmd.offset + cmd.Covered(a)
    requires c.len
      == Min(cmd.length - cmd.Covered(a), IoSize(cmd.Prp(a), cmd.length - cmd.Covered(a)) + (b - a - 1) * PAGE_SIZE)
    ensures cmd.Covered(a) + c.len == cmd.Covered(b) <= cmd.length && 0 < c.len
    ensures (cmd.Covered(b) == cmd.length <==> b == cmd.Entries())
    ensures Bytes(cs + [c]) == cmd.Transfer()[..cmd.Covered(b)]
  {
    hide Command.Host, Command.Transfer, IoSize, Command.Covered, Bytes;
    JoinedSize(cmd, a, b);
    CoveredSteps(cmd, b - 1);
    CoveredSteps(cmd, a);
    assert 0 < c.len by { PositiveSize(cmd, a, b); }
    forall j | cmd.Covered(a) <= j < cmd.Covered(a) + c.len
      ensures cmd.Host(j) == c.host + (j - cmd.Covered(a))
    {
      InJoined(cmd, a, b, j);
    }
    Extend(cmd, cs, cmd.Covered(a), c);
  }

  lemma PositiveSize(cmd: Command, a: nat, b: nat)
    requires 0 < cmd.length && a < b <= cmd.Entries()
    ensures cmd.Covered(a) < cmd.Covered(b)
  {
  }

  lemma TransferEnds(cmd: Command)
    requires cmd.Ok()
    ensures |cmd.Transfer()| == cmd.length && cmd.Covered(0) == 0 && cmd.Transfer()[..0] == []
    ensures cmd.Transfer()[..cmd.length] == cmd.Transfer()
  {
  }

  /** The inner loop: how far adjacent pages reach from entry `start` (counted from 1). */
  method Join(cmd: Command, paddrList: array<nat>, start: nat, numPrps: nat, size: nat)
    returns (next: nat, pageSize: nat)
    requires cmd.Ok() && numPrps == cmd.Entries() < paddrList.Length && 1 <= start <= numPrps
    requires forall j :: 1 <= j <= numPrps ==> paddrList[j] == cmd.Prp(j - 1)
    ensures start < next <= numPrps + 1 && Adjacent(cmd, start - 1, next - 1)
    ensures pageSize == size + (next - start - 1) * PAGE_SIZE
    ensures next <= numPrps ==> !Adjacent(cmd, start - 1, next)
  {
    pageSize := size;
    next := start + 1;
    while next <= numPrps
      invariant start < next <= numPrps + 1 && Adjacent(cmd, start - 1, next - 1)
      invariant pageSize == size + (next - start - 1) * PAGE_SIZE
    {
      if paddrList[next] != paddrList[next - 1] + PAGE_SIZE { break; }
      pageSize := pageSize + PAGE_SIZE;
      next := next + 1;
    }
  }

  /** __do_perform_io_using_dma: one copy per stretch of adjacent pages.  Its PRP buffer holds 512 entries. */
  method PerformIoUsingDma(cmd: Command) returns (copies: seq<Copy>)
    requires cmd.Ok() && cmd.Entries() <= 512
    ensures Bytes(copies) == cmd.Transfer()
  {
    hide Command.Host, Command.Transfer, IoSize, Command.Covered;
    var paddrList := new nat[513](_ => 0);
    var numPrps := CollectPrps(cmd, paddrList);
    copies := [];
    var remaining, offset, prpOffs := cmd.length, cmd.offset, 1;
    TransferEnds(cmd);
    while remaining > 0
      invariant forall j :: 1 <= j <= numPrps ==> paddrList[j] == cmd.Prp(j - 1)
      invariant 1 <= prpOffs <= numPrps + 1 && remaining == cmd.length - cmd.Covered(prpOffs - 1)
      invariant offset == cmd.offset + cmd.Covered(prpOffs - 1)
      invariant (remaining == 0 <==> prpOffs == numPrps + 1)
      invariant Bytes(copies) == cmd.Transfer()[..cmd.Covered(prpOffs - 1)]
      decreases remaining
    {
      ghost var a := prpOffs - 1;
      var paddr := paddrList[prpOffs];
      var pageSize;
      prpOffs, pageSize := Join(cmd, paddrList, prpOffs, numPrps, IoSize(paddr, remaining));
      var ioSize := Min(remaining, pageSize);
      var c := Copy(paddr, offset, ioSize);
      ExtendJoined(cmd, copies, a, prpOffs - 1, c);
      copies := copies + [c];
      remaining := remaining - ioSize;
      offset := offset + ioSize;
    }
  }
}
