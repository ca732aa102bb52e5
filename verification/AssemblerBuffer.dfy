/** The growing code buffer, as an abstract byte sequence. */
module AssemblerBuffers {
  import opened Bytes

  /** The longest instruction, and the room left after every capacity check. */
  const MINIMUM_GAP := 32
  const INITIAL_CAPACITY := 4096
  const ONE_MB := 0x10_0000

  class AssemblerBuffer {
    var contents: array<byte>
    var cursor: nat

    ghost predicate Valid()
      reads this
    {
      cursor <= contents.Length && INITIAL_CAPACITY <= contents.Length
    }

    /** The emitted code. */
    ghost function View(): (v: seq<byte>)
      reads this, contents
      requires Valid()
      ensures |v| == cursor
    {
      contents[..cursor]
    }

    function Room(): int
      reads this
    {
      contents.Length - cursor
    }

    constructor ()
      ensures Valid() && View() == [] && fresh(contents)
    {
      contents := new byte[INITIAL_CAPACITY](_ => 0);
      cursor := 0;
    }

    /** Doubles the area, or adds a megabyte to a large one, and moves the code there. */
    method ExtendCapacity()
      requires Valid()
      modifies this
      ensures Valid() && View() == old(View()) && fresh(contents)
      ensures contents.Length == if old(contents.Length) * 2 < old(contents.Length) + ONE_MB
                                 then old(contents.Length) * 2 else old(contents.Length) + ONE_MB
    {
      var oldCapacity := contents.Length;
      var newCapacity := if oldCapacity * 2 < oldCapacity + ONE_MB then oldCapacity * 2 else oldCapacity + ONE_MB;
      var newContents := new byte[newCapacity](_ => 0);
      forall i | 0 <= i < cursor {
        newContents[i] := contents[i];
      }
      contents := newContents;
    }

    /** Before each instruction: afterwards the longest instruction fits. */
    method EnsureCapacity()
      requires Valid()
      modifies this
      ensures Valid() && View() == old(View()) && Room() >= MINIMUM_GAP
      ensures contents == old(contents) || fresh(contents)
    {
      if cursor >= contents.Length - MINIMUM_GAP {
        ExtendCapacity();
      }
    }

    method Emit8(b: byte)
      requires Valid() && Room() >= 1
      modifies this`cursor, contents
      ensures Valid() && View() == old(View()) + [b] && contents == old(contents)
    {
      contents[cursor] := b;
      cursor := cursor + 1;
    }

    method Emit32(w: uint32)
      requires Valid() && Room() >= 4
      modifies this`cursor, contents
      ensures Valid() && View() == old(View()) + Bytes32(w) && contents == old(contents)
    {
      var b := Bytes32(w);
      contents[cursor], contents[cursor + 1], contents[cursor + 2], contents[cursor + 3] := b[0], b[1], b[2], b[3];
      cursor := cursor + 4;
    }

    method EmitBytes(bytes: seq<byte>)
      requires Valid() && Room() >= |bytes|
      modifies this`cursor, contents
      ensures Valid() && View() == old(View()) + bytes && contents == old(contents)
    {
      for k := 0 to |bytes|
        invariant Valid() && View() == old(View()) + bytes[..k] && contents == old(contents)
      {
        assert old(View()) + bytes[..k + 1] == old(View()) + bytes[..k] + [bytes[k]];
        Emit8(bytes[k]);
      }
    }

    /** One instruction with an empty word in it; gives the word's position. */
    method EmitAround(pre: seq<byte>, post: seq<byte>) returns (position: nat)
      requires Valid() && |pre| + 4 + |post| <= MINIMUM_GAP
      modifies this, contents
      ensures Valid() && (contents == old(contents) || fresh(contents))
      ensures View() == old(View()) + (pre + Bytes32(0) + post) && position == old(cursor) + |pre|
    {
      hide Bytes32;
      EnsureCapacity();
      EmitBytes(pre);
      position := cursor;
      Emit32(0);
      EmitBytes(post);
    }

    method Read32(position: nat) returns (w: uint32)
      requires Valid() && position + 4 <= cursor
      ensures w == Load32(View(), position)
    {
      var b0: int, b1: int, b2: int, b3: int :=
        contents[position], contents[position + 1], contents[position + 2], contents[position + 3];
      w := b0 + 0x100 * b1 + 0x1_0000 * b2 + 0x100_0000 * b3;
    }

    method Write32(position: nat, w: uint32)
      requires Valid() && position + 4 <= cursor
      modifies contents
      ensures Valid() && View() == Store32(old(View()), position, w)
    {
      var b := Bytes32(w);
      contents[position], contents[position + 1], contents[position + 2], contents[position + 3] := b[0], b[1], b[2], b[3];
    }

    method Write8(position: nat, b: byte)
      requires Valid() && position < cursor
      modifies contents
      ensures Valid() && View() == old(View())[position := b]
    {
      contents[position] := b;
    }

    /** Rolls back to a smaller size. */
    method SetSize(newSize: nat)
      requires Valid() && newSize <= cursor
      modifies this`cursor
      ensures Valid() && View() == old(View())[..newSize]
    {
      cursor := newSize;
    }
  }
}
