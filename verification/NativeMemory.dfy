/** Native memory behind the domain backends, as far as the runtime relies on it: fresh blocks of
    the requested length, zeroing, copying and freeing. Every byte remembers where it came from. */
module NativeMemory {
  import opened Types
  import opened Sums
  import opened Crc32c

  type Block = nat

  /** Provenance of a byte: fresh from the backend, zeroed by the runtime, written by a namespace,
      or already there when the caller wrapped the memory. */
  datatype Origin = Fresh | Zeroed | Wrote(ns: NamespaceId) | External

  datatype Cell = Cell(value: Byte, origin: Origin)

  /** heap: blocks that exist; freed: how often each block was freed; lent: blocks borrowed from
      callers; returned: how often each borrowed block was let go; next: the first block never seen. */
  datatype Memory = Memory(
    heap: map<Block, seq<Cell>>, freed: map<Block, nat>, lent: set<Block>, returned: map<Block, nat>, next: Block)

  function Values(cells: seq<Cell>): (r: seq<Byte>)
    ensures |r| == |cells|
    ensures forall i :: 0 <= i < |r| ==> r[i] == cells[i].value
  {
    seq(|cells|, i requires 0 <= i < |cells| => cells[i].value)
  }

  /** n bytes of arbitrary content. */
  function Filled(n: nat, fill: seq<Byte>, origin: Origin): (r: seq<Cell>)
    ensures |r| == n
    ensures forall i :: 0 <= i < n ==> r[i].origin == origin
  {
    seq(n, i requires 0 <= i < n => Cell(if i < |fill| then fill[i] else 0, origin))
  }

  function Zeros(n: nat): (r: seq<Cell>)
    ensures |r| == n
    ensures forall i :: 0 <= i < n ==> r[i] == Cell(0, Zeroed)
  {
    seq(n, i requires 0 <= i < n => Cell(0, Zeroed))
  }

  function Written(data: seq<Byte>, ns: NamespaceId): (r: seq<Cell>)
    ensures |r| == |data|
    ensures forall i :: 0 <= i < |data| ==> r[i] == Cell(data[i], Wrote(ns))
  {
    seq(|data|, i requires 0 <= i < |data| => Cell(data[i], Wrote(ns)))
  }

  /** allocate: the new block is m.next. */
  function Obtain(m: Memory, cells: seq<Cell>): Memory {
    m.(heap := m.heap[m.next := cells], next := m.next + 1)
  }

  /** free: counted even when the block is gone already, so that a double free would show. */
  function Free(m: Memory, b: Block): Memory {
    m.(heap := m.heap - {b}, freed := m.freed[b := Get(m.freed, b) + 1])
  }

  function Content(m: Memory, b: Block): seq<Cell> {
    if b in m.heap then m.heap[b] else []
  }

  /** zero(0, committed). */
  function ZeroBlock(m: Memory, b: Block): Memory {
    if b in m.heap then m.(heap := m.heap[b := Zeros(|m.heap[b]|)]) else m
  }

  /** Overwrite a prefix of the block. */
  function WritePrefix(m: Memory, b: Block, cells: seq<Cell>): Memory {
    if b in m.heap && |cells| <= |m.heap[b]|
    then m.(heap := m.heap[b := cells + m.heap[b][|cells|..]])
    else m
  }
}
