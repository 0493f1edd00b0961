/** `std::io::Cursor<Vec<u8>>` with the position made explicit: a reader is
    the buffer it owns and an offset into it. Reads never change the buffer,
    so `IntoInner` always gives back exactly what the reader was built on. */
module Cursor {
  import opened Wrappers
  import opened Integers
  import opened Errors
  import opened ByteOrder

  datatype Reader = Reader(data: seq<U8>, pos: nat) {

    predicate Valid() {
      pos <= |data|
    }

    /** `Buf::remaining` */
    function Remaining(): nat
      requires Valid()
    {
      |data| - pos
    }

    /** `Cursor::into_inner` */
    function IntoInner(): seq<U8> {
      data
    }
  }

  /** `read_exact` into a buffer of `n` bytes: fails with end-of-file when
      fewer than `n` bytes remain, otherwise yields the next `n` bytes and
      advances past them. */
  function ReadExact(r: Reader, n: nat): (res: Result<(seq<U8>, Reader), Error>)
    requires r.Valid()
    ensures res.Ok? <==> n <= r.Remaining()
    ensures res.Err? ==> res.error == UnexpectedEof
    ensures res.Ok? ==> res.value.0 == r.data[r.pos..r.pos + n]
    ensures res.Ok? ==> res.value.1 == Reader(r.data, r.pos + n) && res.value.1.Valid()
  {
    if n <= r.Remaining() then Ok((r.data[r.pos..r.pos + n], Reader(r.data, r.pos + n)))
    else Err(UnexpectedEof)
  }

  /** `read_exact` into a buffer of `remaining()` bytes, which cannot fail:
      yields every unread byte and leaves the reader at the end. */
  function ReadRemaining(r: Reader): (res: (seq<U8>, Reader))
    requires r.Valid()
    ensures res.0 == r.data[r.pos..]
    ensures res.1 == Reader(r.data, |r.data|) && res.1.Remaining() == 0
  {
    (r.data[r.pos..], Reader(r.data, |r.data|))
  }

  /** `read_u8` */
  function ReadU8(r: Reader): (res: Result<(U8, Reader), Error>)
    requires r.Valid()
    ensures res.Ok? <==> 1 <= r.Remaining()
    ensures res.Err? ==> res.error == UnexpectedEof
    ensures res.Ok? ==> res.value.0 == r.data[r.pos]
    ensures res.Ok? ==> res.value.1 == Reader(r.data, r.pos + 1) && res.value.1.Valid()
  {
    var read :- ReadExact(r, 1);
    Ok((read.0[0], read.1))
  }

  /** `read_u16::<BigEndian>` */
  function ReadU16BigEndian(r: Reader): (res: Result<(U16, Reader), Error>)
    requires r.Valid()
    ensures res.Ok? <==> 2 <= r.Remaining()
    ensures res.Err? ==> res.error == UnexpectedEof
    ensures res.Ok? ==> res.value.0 == BigEndian(r.data[r.pos..r.pos + 2])
    ensures res.Ok? ==> res.value.1 == Reader(r.data, r.pos + 2) && res.value.1.Valid()
  {
    var read :- ReadExact(r, 2);
    Ok((BigEndian(read.0), read.1))
  }

  /** `read_u32::<BigEndian>` */
  function ReadU32BigEndian(r: Reader): (res: Result<(U32, Reader), Error>)
    requires r.Valid()
    ensures res.Ok? <==> 4 <= r.Remaining()
    ensures res.Err? ==> res.error == UnexpectedEof
    ensures res.Ok? ==> res.value.0 == BigEndian(r.data[r.pos..r.pos + 4])
    ensures res.Ok? ==> res.value.1 == Reader(r.data, r.pos + 4) && res.value.1.Valid()
  {
    var read :- ReadExact(r, 4);
    Ok((BigEndian(read.0), read.1))
  }
}
