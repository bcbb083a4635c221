/**
 * `_toBinString`: the message, already encoded as bytes, written out as a
 * string of '0'/'1' characters, eight per byte, most significant bit first.
 */
module Md5Message {
  import opened Arith
  import opened BitStrings

  /** Each byte of the message as its 8-character `{:08b}` form, in order. */
  function MessageBits(message: seq<Byte>): Bits
  {
    if message == [] then [] else MessageBits(message[..|message| - 1]) + ByteBits(message[|message| - 1])
  }

  /** `_toBinString`: append the 8-character form of every byte. */
  method ToBinString(message: seq<Byte>) returns (result: Bits)
    ensures result == MessageBits(message)
  {
    result := [];
    for k := 0 to |message|
      invariant result == MessageBits(message[..k])
    {
      assert message[..k + 1][..k] == message[..k];
      result := result + ByteBits(message[k]);
    }
    assert message[..|message|] == message;
  }

  /** Reading a bit string back as bytes, eight characters at a time. */
  function MessageBytes(bits: Bits): seq<Byte>
    requires |bits| % 8 == 0
  {
    if bits == [] then [] else MessageBytes(bits[..|bits| - 8]) + [ByteOf(bits[|bits| - 8..])]
  }

  /** Eight characters per byte. */
  lemma {:induction false} MessageBitsLength(message: seq<Byte>)
    ensures |MessageBits(message)| == 8 * |message|
  {
    if message != [] {
      MessageBitsLength(message[..|message| - 1]);
    }
  }

  /** So the bit string is whole bytes. */
  lemma MessageBitsWhole(message: seq<Byte>)
    ensures |MessageBits(message)| % 8 == 0
  {
    MessageBitsLength(message);
    DivModUnique(|MessageBits(message)|, 8, |message|, 0);
  }

  /** The bit string of a concatenation is the concatenation of the bit strings. */
  lemma {:induction false} MessageBitsAppend(x: seq<Byte>, y: seq<Byte>)
    ensures MessageBits(x + y) == MessageBits(x) + MessageBits(y)
    decreases |y|
  {
    if y == [] {
      assert x + y == x;
    } else {
      var y' := y[..|y| - 1];
      assert (x + y)[..|x + y| - 1] == x + y';
      MessageBitsAppend(x, y');
    }
  }

  /** No byte is lost or changed: the bytes can be read back from the bit string. */
  lemma {:induction false} MessageBitsInverse(message: seq<Byte>)
    ensures |MessageBits(message)| % 8 == 0
    ensures MessageBytes(MessageBits(message)) == message
  {
    MessageBitsWhole(message);
    if message != [] {
      var init, last := message[..|message| - 1], message[|message| - 1];
      assert MessageBytes(MessageBits(message)) == MessageBytes(MessageBits(init)) + [ByteOf(ByteBits(last))] by {
        MessageBitsWhole(init);
        ByteBitsValue(last);
        MessageBytesSnoc(MessageBits(init), ByteBits(last));
      }
      assert ByteOf(ByteBits(last)) == last by {
        ByteBitsValue(last);
      }
      assert MessageBytes(MessageBits(init)) == init by {
        MessageBitsInverse(init);
      }
      assert init + [last] == message;
    }
  }

  /** One more byte of bits is one more byte. */
  lemma MessageBytesSnoc(bits: Bits, byte: Bits)
    requires |bits| % 8 == 0 && |byte| == 8
    ensures MessageBytes(bits + byte) == MessageBytes(bits) + [ByteOf(byte)]
  {
    var all := bits + byte;
    assert all[..|all| - 8] == bits && all[|all| - 8..] == byte by {
      Parts(bits, byte);
    }
  }

  /** Every bit string of whole bytes is the bit string of some message. */
  lemma {:induction false} MessageBytesInverse(bits: Bits)
    requires |bits| % 8 == 0
    ensures MessageBits(MessageBytes(bits)) == bits
    decreases |bits|
  {
    if bits != [] {
      var init, last := bits[..|bits| - 8], bits[|bits| - 8..];
      var bytes := MessageBytes(bits);
      assert bytes[..|bytes| - 1] == MessageBytes(init);
      MessageBytesInverse(init);
      FixedValue(last);
      Rejoin(bits, |bits| - 8);
    }
  }
}
