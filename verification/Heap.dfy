/** The bump heap of stdlib.c, whose end kernel.c also moves: typed characters go there between the blocks. */
module BumpHeap {
  import opened Machine
  import opened Console
  import opened TypedLine

  /** A block that `malloc` handed out. */
  datatype Block = Block(start: nat, size: nat)

  /**
   * The heap from `heap_start` on; `keys` are the keys pressed so far, `line` is the line being typed, `blocks` is what
   * `malloc` handed out.
   */
  class Heap {
    const bytes: array<Byte>
    const heap_start: nat
    var heap_end: nat
    ghost var keys: seq<Byte>
    ghost var line: seq<Byte>
    ghost var blocks: seq<Block>

    /** The blocks follow each other. */
    ghost predicate BlocksApart()
      reads this
    {
      && heap_end <= bytes.Length && heap_start + bytes.Length < TWO32
      && (forall i :: 0 <= i < |blocks| ==> blocks[i].start + blocks[i].size <= heap_end)
      && (forall i, j :: 0 <= i < j < |blocks| ==> blocks[i].start + blocks[i].size <= blocks[j].start)
    }

    /** And the typed line follows the blocks. */
    ghost predicate Valid()
      reads this, bytes
    {
      && BlocksApart()
      && line == LineOf(keys) && |line| < COLUMNS && |line| <= heap_end
      && bytes[heap_end - |line|..heap_end] == line
      && (forall b :: b in line ==> b != 0)
      && (forall i :: 0 <= i < |blocks| ==> blocks[i].start + blocks[i].size <= heap_end - |line|)
    }

    constructor (bytes: array<Byte>, heap_start: nat)
      requires heap_start + bytes.Length < TWO32
      ensures Valid() && this.bytes == bytes && this.heap_start == heap_start
      ensures heap_end == 0 && keys == [] && line == [] && blocks == []
    {
      this.bytes, this.heap_start, heap_end, keys, line, blocks := bytes, heap_start, 0, [], [], [];
    }

    /** The key `c` was pressed. */
    ghost method Pressed(c: Byte)
      requires line == LineOf(keys)
      modifies this`keys, this`line
      ensures keys == old(keys) + [c] && line == LineAfter(old(line), c) && line == LineOf(keys)
    {
      assert (keys + [c])[..|keys|] == keys;
      keys, line := keys + [c], LineAfter(line, c);
    }

    /** `malloc`: no block overlaps an earlier one. Between two lines the typed line stays the end of the heap. */
    method Malloc(size: nat) returns (ptr: nat)
      requires BlocksApart() && heap_end + size <= bytes.Length
      modifies this`heap_end, this`blocks
      ensures BlocksApart() && (old(Valid()) && line == [] ==> Valid())
      ensures ptr == heap_start + old(heap_end) && heap_end == old(heap_end) + size
      ensures blocks == old(blocks) + [Block(old(heap_end), size)]
    {
      ptr := heap_start + heap_end;
      blocks := blocks + [Block(heap_end, size)];
      heap_end := heap_end + size;
    }

    /** The mallocs of the file system during one call. */
    method MallocAll(sizes: seq<nat>)
      requires Valid() && line == [] && heap_end + Total(sizes) <= bytes.Length
      modifies this`heap_end, this`blocks
      ensures Valid() && heap_end == old(heap_end) + Total(sizes)
      ensures blocks == old(blocks) + Placed(old(heap_end), sizes)
    {
      var i := 0;
      while i < |sizes|
        invariant 0 <= i <= |sizes| && Valid() && line == []
        invariant heap_end + Total(sizes[i..]) == old(heap_end) + Total(sizes)
        invariant blocks + Placed(heap_end, sizes[i..]) == old(blocks) + Placed(old(heap_end), sizes)
      {
        ghost var before, rest := blocks, sizes[i + 1..];
        assert sizes[i..] == [sizes[i]] + rest;
        var p := Malloc(sizes[i]);
        assert blocks + Placed(heap_end, rest)
          == before + Placed(old(heap_end) + Total(sizes) - Total(sizes[i..]), sizes[i..]);
        i := i + 1;
      }
    }

    /** A typed character is stored at the end of the heap. */
    method Store(c: Byte)
      requires Valid() && heap_end < bytes.Length && c !in {0, BACKSPACE, KEY_F}
      modifies this`heap_end, this`keys, this`line, bytes
      ensures Valid() && heap_end == old(heap_end) + 1 && keys == old(keys) + [c] && line == LineAfter(old(line), c)
      ensures bytes[..old(heap_end)] == old(bytes[..heap_end])
    {
      bytes[heap_end] := c;
      heap_end := heap_end + 1;
      Pressed(c);
      assert bytes[..old(heap_end)] == old(bytes[..heap_end]);
      assert bytes[old(heap_end) - |old(line)|..old(heap_end)] == old(line);
    }

    /** The copying loop of the `f` key, with its two rewinds: the last `size` bytes are taken off the heap. */
    method TakeLine(size: nat) returns (path: array<Byte>)
      requires Valid() && size == |line|
      modifies this`heap_end, this`keys, this`line
      ensures Valid() && fresh(path) && path[..] == old(line) + [0]
      ensures keys == old(keys) + [KEY_F] && line == [] && heap_end == old(heap_end) - size
    {
      path := new Byte[size + 1];
      ghost var end := heap_end;
      heap_end := heap_end - size;
      var i := 0;
      while i < size
        modifies this`heap_end, path
        invariant 0 <= i <= size && heap_end == end - size + i
        invariant forall k :: 0 <= k < i ==> path[k] == bytes[end - size + k]
      {
        path[i] := bytes[heap_end];
        heap_end := heap_end + 1;
        i := i + 1;
      }
      path[size] := 0;
      heap_end := heap_end - size;
      assert path[..size] == bytes[end - size..end];
      Pressed(KEY_F);
    }
  }

  function Total(sizes: seq<nat>): nat {
    if sizes == [] then 0 else sizes[0] + Total(sizes[1..])
  }

  /** Blocks of these sizes one behind the other. */
  function Placed(start: nat, sizes: seq<nat>): seq<Block>
    decreases |sizes|
  {
    if sizes == [] then [] else [Block(start, sizes[0])] + Placed(start + sizes[0], sizes[1..])
  }
}
