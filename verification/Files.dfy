/**
 Files as the code sees them through `lseek` and `pread`. The answers are arbitrary: a file may fail, return
 short reads, and return different bytes each time. `Steady` picks out the readable files that never change.
 */
module Files {
  import opened Bytes
  import opened Wrappers

  /** What `pread` returns for a regular file with these contents. */
  function ReadAt(image: Bytes, offset: nat, size: nat): (r: Bytes)
    ensures |r| <= size
    ensures |r| == size <==> InRange(image, offset, size) || size == 0
    ensures InRange(image, offset, size) ==> r == Slice(image, offset, size)
  {
    if offset > |image| then [] else image[offset..Min(offset + size, |image|)]
  }

  /** The answer to a read of a file with these contents that takes no partial reads and none past the end. */
  function AnswerFrom(contents: Bytes, length: nat, offset: nat): Option<Bytes> {
    if offset < |contents| && InRange(contents, offset, length) then Some(Slice(contents, offset, length)) else None
  }

  /** An `off_t` that is not negative. */
  type FileSize = n: int | 0 <= n < 0x8000_0000_0000_0000

  /** The contents of a file. */
  type Image = image: Bytes | |image| < 0x8000_0000_0000_0000 witness []

  /** `memcpy` of `src` to position `at` of `dst`. */
  method CopyInto(dst: array<Byte>, at: nat, src: Bytes)
    requires at + |src| <= dst.Length
    modifies dst
    ensures dst[..at] == old(dst[..at])
    ensures dst[at..at + |src|] == src
    ensures dst[at + |src|..] == old(dst[at + |src|..])
  {
    forall i | 0 <= i < |src| {
      dst[at + i] := src[i];
    }
  }

  class File {
    /** The answer to the n-th call of `pread`, for an offset and a size; None is an error. */
    const answer: (nat, nat, nat) -> Option<Bytes>

    const reportedSize: Option<FileSize>

    const image: Image

    var calls: nat

    /** Every sequence of bytes that this file has returned so far. */
    ghost var delivered: set<Bytes>

    constructor (answer: (nat, nat, nat) -> Option<Bytes>, reportedSize: Option<FileSize>, image: Image)
      ensures this.answer == answer && this.reportedSize == reportedSize && this.image == image
      ensures calls == 0 && delivered == {}
    {
      this.answer, this.reportedSize, this.image := answer, reportedSize, image;
      calls, delivered := 0, {};
    }

    ghost predicate Steady() {
      && reportedSize == Some(|image|)
      && forall n: nat, offset: nat, size: nat :: answer(n, offset, size) == Some(ReadAt(image, offset, size))
    }

    /** What the n-th call of `pread` returns: never more than was asked for. */
    function Answer(n: nat, size: nat, offset: nat): (r: Option<Bytes>)
      ensures r.Some? ==> |r.value| <= size
    {
      match answer(n, offset, size)
      case None => None
      case Some(bytes) => Some(bytes[..Min(size, |bytes|)])
    }

    lemma SteadyAnswer(n: nat, size: nat, offset: nat)
      requires Steady()
      ensures Answer(n, size, offset) == Some(ReadAt(image, offset, size))
    {
      var read := ReadAt(image, offset, size);
      assert answer(n, offset, size) == Some(read) && read[..|read|] == read;
    }

    method PRead(size: nat, offset: nat) returns (r: Option<Bytes>)
      modifies this`calls, this`delivered
      ensures r == Answer(old(calls), size, offset)
      ensures r.Some? ==> |r.value| <= size
      ensures delivered == old(delivered) + (if r.Some? then {r.value} else {})
      ensures calls == old(calls) + 1
      ensures Steady() ==> r == Some(ReadAt(image, offset, size))
    {
      r := Answer(calls, size, offset);
      if Steady() {
        SteadyAnswer(calls, size, offset);
      }
      calls := calls + 1;
      if r.Some? {
        delivered := delivered + {r.value};
      }
    }
  }

  /** A failure, or the bytes of the image that were asked for. */
  predicate IsFaithful(image: Bytes, offset: nat, length: nat, answer: Option<Bytes>) {
    answer.Some? ==> InRange(image, offset, length) && answer.value == Slice(image, offset, length)
  }

  /** The file an EROFS image is read through. It returns all the bytes asked for, or fails. */
  class ImageFile {
    /** The answer to the n-th read, for an offset and a size. */
    const answer: (nat, nat, nat) -> Option<Bytes>

    const size: nat

    /** The contents, as far as the answers are true. */
    ghost const image: Bytes

    var calls: nat

    constructor (answer: (nat, nat, nat) -> Option<Bytes>, size: nat, ghost image: Bytes)
      ensures this.answer == answer && this.size == size && this.image == image && calls == 0
    {
      this.answer, this.size, this.image, calls := answer, size, image, 0;
    }

    /** Reads may fail, but those that succeed return bytes of the image: what a protected file guarantees. */
    ghost predicate AnswersTruly() {
      forall n: nat, offset: nat, length: nat :: IsFaithful(image, offset, length, answer(n, offset, length))
    }

    /** Moreover, its size is that of the image. */
    ghost predicate Faithful() {
      size == |image| && AnswersTruly()
    }

    /** Moreover, no read inside the image fails. */
    ghost predicate Reliable() {
      && Faithful()
      && forall n: nat, offset: nat, length: nat :: InRange(image, offset, length) && offset < size ==>
           answer(n, offset, length).Some?
    }

    method Read(length: nat, offset: nat) returns (r: Option<Bytes>)
      modifies this`calls
      ensures calls == old(calls) + 1
      ensures r.Some? ==> |r.value| == length
      ensures AnswersTruly() && r.Some? ==> InRange(image, offset, length) && r.value == Slice(image, offset, length)
      ensures Reliable() && InRange(image, offset, length) && offset < size ==> r.Some?
    {
      r := answer(calls, offset, length);
      assert AnswersTruly() ==> IsFaithful(image, offset, length, r);
      calls := calls + 1;
      if r.Some? && |r.value| != length {
        r := None;
      }
    }
  }
}
