/** Physical memory against a plain map from addresses to bytes, and the allocation of device memory. */
module Memory {
  import opened Options
  import opened Sequences
  import opened Words
  import opened X86State

  // ---------- Writes and reads ----------

  /** A paddr_write that was in range. */
  datatype Write = Write(addr: nat, data: word, len: width)

  predicate InRange(w: Write, size: nat) {
    w.addr + w.len <= size
  }

  /** The memory after writes, as paddr_write stores them. */
  function Written(m: seq<byte>, ws: seq<Write>): (m': seq<byte>)
    requires forall w | w in ws :: InRange(w, |m|)
    ensures |m'| == |m|
    decreases |ws|
  {
    if ws == [] then m
    else
      var (before, w) := (ws[..|ws| - 1], ws[|ws| - 1]);
      assert forall x | x in before :: x in ws;
      assert InRange(w, |m|);
      WriteMemory(Written(m, before), w.addr, w.data, w.len)
  }

  /** The i-th byte of a word, least significant first. */
  function ByteOf(data: word, i: nat): byte
    requires i < 4
  {
    if i == 0 then data % 256 else if i == 1 then data / 256 % 256
    else if i == 2 then data / 65536 % 256 else data / 16777216 % 256
  }

  /** The byte at an address: from the last write that covers it, or the initial one. */
  function ByteAt(m: seq<byte>, ws: seq<Write>, a: nat): byte
    requires a < |m|
    decreases |ws|
  {
    if ws == [] then m[a]
    else
      var w := ws[|ws| - 1];
      if w.addr <= a < w.addr + w.len then ByteOf(w.data, a - w.addr) else ByteAt(m, ws[..|ws| - 1], a)
  }

  lemma LittleEndianBytes(data: word, i: nat)
    requires i < 4
    ensures LittleEndian(data)[i] == ByteOf(data, i)
  {
    var bs := LittleEndian(data);
    assert bs[0] == ByteOf(data, 0) && bs[1] == ByteOf(data, 1);
    assert bs[2] == ByteOf(data, 2) && bs[3] == ByteOf(data, 3);
  }

  lemma WrittenByte(m: seq<byte>, w: Write, a: nat)
    requires InRange(w, |m|) && a < |m|
    ensures WriteMemory(m, w.addr, w.data, w.len)[a] ==
            if w.addr <= a < w.addr + w.len then ByteOf(w.data, a - w.addr) else m[a]
  {
    if w.addr <= a < w.addr + w.len {
      LittleEndianBytes(w.data, a - w.addr);
    }
  }

  lemma {:induction false} WrittenBytes(m: seq<byte>, ws: seq<Write>, a: nat)
    requires (forall w | w in ws :: InRange(w, |m|)) && a < |m|
    ensures Written(m, ws)[a] == ByteAt(m, ws, a)
    decreases |ws|
  {
    if ws != [] {
      var before := ws[..|ws| - 1];
      assert forall x | x in before :: x in ws;
      WrittenBytes(m, before, a);
      WrittenByte(Written(m, before), ws[|ws| - 1], a);
    }
  }

  /** The bytes of the plain map at n addresses. */
  function BytesAt(m: seq<byte>, ws: seq<Write>, addr: nat, n: nat): (bs: seq<byte>)
    requires addr + n <= |m|
    ensures |bs| == n && forall i | 0 <= i < n :: bs[i] == ByteAt(m, ws, addr + i)
    decreases n
  {
    if n == 0 then [] else BytesAt(m, ws, addr, n - 1) + [ByteAt(m, ws, addr + n - 1)]
  }

  /** After any writes, overlapping or not, every read is the little-endian number of the bytes of the plain map. */
  lemma ReadsMatchBytes(m: seq<byte>, ws: seq<Write>, addr: nat, len: width)
    requires (forall w | w in ws :: InRange(w, |m|)) && addr + len <= |m|
    ensures ReadMemory(Written(m, ws), addr, len) == Number256(BytesAt(m, ws, addr, len))
  {
    var (m', bytes) := (Written(m, ws), BytesAt(m, ws, addr, len));
    forall i | 0 <= i < len ensures m'[addr..addr + len][i] == bytes[i] {
      WrittenBytes(m, ws, addr + i);
    }
    assert m'[addr..addr + len] == bytes;
  }

  // ---------- Device memory ----------

  const IO_SPACE_MAX := 1024 * 1024
  const PAGE_SIZE := 4096

  /** A size rounded up to whole pages. */
  function Pages(size: nat): (s: nat)
    ensures s % PAGE_SIZE == 0 && size <= s < size + PAGE_SIZE
  {
    (size + (PAGE_SIZE - 1)) / PAGE_SIZE * PAGE_SIZE
  }

  datatype Region = Region(start: nat, size: nat)

  class IoSpace {
    var pSpace: nat

    constructor ()
      ensures pSpace == 0
    {
      pSpace := 0;
    }

    /** ok is false when the bound assertion fails. */
    method NewSpace(size: nat) returns (ok: bool, p: nat)
      modifies this
      ensures p == old(pSpace) && pSpace == p + Pages(size)
      ensures ok <==> pSpace < IO_SPACE_MAX
    {
      p := pSpace;
      pSpace := pSpace + Pages(size);
      ok := pSpace < IO_SPACE_MAX;
    }
  }

  /** The regions that allocations hand out one after the other, from an offset on; empty when one fails. */
  function Allocated(from: nat, sizes: seq<nat>): Option<seq<Region>>
    decreases |sizes|
  {
    if sizes == [] then Some([])
    else if from + Pages(sizes[0]) >= IO_SPACE_MAX then None
    else match Allocated(from + Pages(sizes[0]), sizes[1..])
      case None => None
      case Some(rs) => Some([Region(from, sizes[0])] + rs)
  }

  ghost function Prefixed(first: seq<Region>, rest: Option<seq<Region>>): Option<seq<Region>> {
    match rest
    case None => None
    case Some(rs) => Some(first + rs)
  }

  /** Allocating one region after the other hands out what Allocated says, and fails when it does. */
  method AllocateAll(space: IoSpace, sizes: seq<nat>) returns (ok: bool, rs: seq<Region>)
    modifies space
    ensures ok <==> Allocated(old(space.pSpace), sizes).Some?
    ensures ok ==> Allocated(old(space.pSpace), sizes) == Some(rs)
  {
    ok, rs := true, [];
    var i := 0;
    ghost var all := Allocated(space.pSpace, sizes);
    assert sizes[0..] == sizes && (all.Some? ==> [] + all.value == all.value);
    while ok && i < |sizes|
      invariant 0 <= i <= |sizes|
      invariant all == if ok then Prefixed(rs, Allocated(space.pSpace, sizes[i..])) else None
    {
      var size, p := sizes[i], 0;
      assert sizes[i..][1..] == sizes[i + 1..];
      ghost var later := Allocated(space.pSpace + Pages(size), sizes[i + 1..]);
      if later.Some? {
        Associative(rs, [Region(space.pSpace, size)], later.value);
      }
      ok, p := space.NewSpace(size);
      rs := rs + [Region(p, size)];
      i := i + 1;
    }
    if ok {
      assert sizes[i..] == [] && rs + [] == rs;
    }
  }

  /** Over every run that passes the assertion, regions are page-aligned, in bounds and pairwise disjoint. */
  lemma {:induction false} RegionsAreApart(from: nat, sizes: seq<nat>)
    requires from % PAGE_SIZE == 0 && Allocated(from, sizes).Some?
    ensures var rs := Allocated(from, sizes).value;
            && |rs| == |sizes|
            && (forall i | 0 <= i < |rs| ::
                  rs[i].size == sizes[i] && rs[i].start % PAGE_SIZE == 0 && from <= rs[i].start &&
                  rs[i].start + rs[i].size < IO_SPACE_MAX)
            && (forall i, j | 0 <= i < j < |rs| :: rs[i].start + rs[i].size <= rs[j].start)
    decreases |sizes|
  {
    if sizes != [] {
      var next := from + Pages(sizes[0]);
      RegionsAreApart(next, sizes[1..]);
      var rest := Allocated(next, sizes[1..]).value;
      var rs := [Region(from, sizes[0])] + rest;
      forall i | 0 < i < |rs| ensures rs[i] == rest[i - 1] && sizes[i] == sizes[1..][i - 1] {}
    }
  }
}
