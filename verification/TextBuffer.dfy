/** A growable text with the capacity it was allocated with. */
module TextBuffer {
  import opened Basics
  import opened Types
  import opened TextCodec

  class Buffer {
    const capacity: nat
    var text: string

    constructor WithCapacity(capacity: nat)
      ensures this.capacity == capacity && text == ""
    {
      this.capacity := capacity;
      text := "";
    }

    method Push(c: char)
      modifies this
      ensures text == old(text) + [c]
    {
      text := text + [c];
    }

    method PushStr(s: string)
      modifies this
      ensures text == old(text) + s
    {
      text := text + s;
    }
  }

  /** Appends a half's ciphertext bytes, text-encoded. */
  method EncodeInto(bytes: seq<byte>, enc: Encoding, out: Buffer)
    modifies out
    ensures out.text == old(out.text) + EncodeText(bytes, enc)
  {
    out.PushStr(EncodeText(bytes, enc));
  }
}
