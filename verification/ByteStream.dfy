/** A cursor over a buffer of bytes. A failed read leaves the cursor where it was. */
module ByteStream {
  import opened Wrappers

  type Byte = b: nat | b < 256

  /** The exceptions of the decoder, the parser and the validator. */
  datatype Error = EndOfStream | DecodeOverflow | ParseError | ModuleTooLarge | ValidationError

  class ByteStream {
    const buffer: seq<Byte>
    var position: nat

    ghost predicate Valid()
      reads this
    {
      position <= |buffer|
    }

    ghost function Remaining(): seq<Byte>
      requires Valid()
      reads this
    {
      buffer[position..]
    }

    constructor (b: seq<Byte>)
      ensures Valid() && buffer == b && position == 0 && Remaining() == b
    {
      buffer := b;
      position := 0;
    }

    method HasRemaining() returns (more: bool)
      requires Valid()
      ensures more <==> Remaining() != []
    {
      more := position < |buffer|;
    }

    method BytesConsumed() returns (n: nat)
      ensures n == position
    {
      n := position;
    }

    method ReadByte() returns (r: Result<Byte, Error>)
      requires Valid()
      modifies this
      ensures Valid()
      ensures old(Remaining()) == [] ==> r == Err(EndOfStream) && position == old(position)
      ensures old(Remaining()) != [] ==>
        r == Ok(old(Remaining())[0]) && Remaining() == old(Remaining())[1..] && position == old(position) + 1
    {
      if position >= |buffer| {
        return Err(EndOfStream);
      }
      position := position + 1;
      r := Ok(buffer[position - 1]);
    }

    method ReadBytes(n: nat) returns (r: Result<seq<Byte>, Error>)
      requires Valid()
      modifies this
      ensures Valid()
      ensures n > |old(Remaining())| ==> r == Err(EndOfStream) && position == old(position)
      ensures n <= |old(Remaining())| ==>
        r == Ok(old(Remaining())[..n]) && Remaining() == old(Remaining())[n..] && position == old(position) + n
    {
      var remainder := |buffer| - position;
      if remainder < n {
        return Err(EndOfStream);
      }
      r := Ok(buffer[position..position + n]);
      assert buffer[position..position + n] == buffer[position..][..n];
      assert buffer[position + n..] == buffer[position..][n..];
      position := position + n;
    }

    method Skip(n: nat) returns (r: Result<(), Error>)
      requires Valid()
      modifies this
      ensures Valid()
      ensures n > |old(Remaining())| ==> r == Err(EndOfStream) && position == old(position)
      ensures n <= |old(Remaining())| ==>
        r == Ok(()) && Remaining() == old(Remaining())[n..] && position == old(position) + n
    {
      var remainder := |buffer| - position;
      if remainder < n {
        return Err(EndOfStream);
      }
      position := position + n;
      r := Ok(());
    }
  }

  /** `int32_t(x)` */
  function Narrowed(x: nat): int {
    var w := x % 0x1_0000_0000;
    if w < 0x8000_0000 then w else w - 0x1_0000_0000
  }

  /** The source takes the offsets of `ReadBytes` as 32-bit signed values: the ones that are meant? */
  predicate OffsetsMeant(position: nat, n: nat) {
    Narrowed(position) == position && Narrowed(n) == n
  }

  /** Every read of a buffer has the offsets that are meant if and only if the buffer is smaller than 2 GiB. */
  lemma OffsetsExactly(buffer: seq<Byte>)
    ensures |buffer| < 0x8000_0000 <==>
      forall position: nat, n: nat | position + n <= |buffer| :: OffsetsMeant(position, n)
  {
    if |buffer| >= 0x8000_0000 {
      assert !OffsetsMeant(0x8000_0000, 0);
    }
  }
}
