/** The growing buffers of deanimate.c, and the de-animation that works on them. */
module GifBuffers {
  import opened Text
  import opened Gif

  /** `struct binbuffer`: a buffer without bytes stands for a null pointer. */
  class BinBuffer {
    var buffer: array<byte>
    var offset: nat
    var size: nat

    constructor (bytes: seq<byte>)
      ensures fresh(buffer) && Sized() && offset == 0 && Bytes() == bytes
    {
      buffer := new byte[|bytes|](i requires 0 <= i < |bytes| => bytes[i]);
      offset, size := 0, |bytes|;
    }

    ghost predicate Sized()
      reads this
    {
      size == buffer.Length
    }

    /** The offset never passes the size. */
    ghost predicate Valid()
      reads this
    {
      Sized() && offset <= size
    }

    ghost function Bytes(): seq<byte>
      reads this, buffer
      requires Sized()
    {
      buffer[..]
    }

    /** What has been written. */
    ghost function Written(): seq<byte>
      reads this, buffer
      requires Valid()
    {
      buffer[..offset]
    }

    /** What has not been read. */
    ghost function Unread(): seq<byte>
      reads this, buffer
      requires Valid()
    {
      buffer[offset..]
    }

    /** `realloc` to a new size: what was written stays. */
    method Reallocate(newSize: nat)
      requires Valid() && offset <= newSize
      modifies this
      ensures Valid() && size == newSize && offset == old(offset) && fresh(buffer)
      ensures Written() == old(Written())
    {
      var grown := new byte[newSize](_ => 0);
      forall i | 0 <= i < offset {
        grown[i] := buffer[i];
      }
      buffer := grown;
      size := newSize;
    }

    /** `buf_extend`: memory comes in pieces of 1024 bytes. */
    method Extend(length: nat)
      requires Valid()
      modifies this
      ensures Valid() && offset == old(offset) && offset + length <= size
      ensures size == if offset + length > old(size) then (old(size) + length + 1023) / 1024 * 1024 else old(size)
      ensures buffer == old(buffer) || fresh(buffer)
      ensures Written() == old(Written())
    {
      if offset + length > size {
        Reallocate((size + length + 1023) / 1024 * 1024);
      }
    }

    /** `buf_getbyte` */
    method GetByte(i: nat) returns (c: byte)
      requires Valid()
      ensures c == ByteAt(Unread(), i)
    {
      if offset + i < size {
        c := buffer[offset + i];
      } else {
        c := 0;
      }
    }

    /** `buf_copy(src, this, length)` */
    method CopyFrom(src: BinBuffer, length: nat) returns (failed: bool)
      requires Valid() && src.Valid() && src != this && src.buffer != buffer
      modifies this, buffer, src`offset
      ensures Valid() && src.Valid() && src.buffer != buffer
      ensures buffer == old(buffer) || fresh(buffer)
      ensures failed <==> length == 0 || length > |old(src.Unread())|
      ensures failed ==> src.offset == old(src.offset) && offset == old(offset)
      ensures failed ==> size == old(size) && Written() == old(Written())
      ensures !failed ==> src.offset == old(src.offset) + length
      ensures !failed ==> Written() == old(Written()) + old(src.Unread())[..length]
    {
      if src.size == 0 || length == 0 || src.offset + length > src.size {
        return true;
      }
      Extend(length);
      forall i | 0 <= i < length {
        buffer[offset + i] := src.buffer[src.offset + i];
      }
      src.offset := src.offset + length;
      offset := offset + length;
      failed := false;
    }

    /** `gif_skip_data_block` */
    method SkipDataBlock() returns (failed: bool)
      requires Valid() && offset < size
      modifies this`offset
      ensures failed <==> Skipped(old(Unread())).None?
      ensures !failed ==> Valid() && offset == old(offset) + Skipped(old(Unread())).value
    {
      hide Skipped;
      ghost var s, k: nat := Unread(), 0;
      var c := GetByte(0);
      while c != 0
        invariant Valid() && offset < size && c == ByteAt(Unread(), 0)
        invariant offset == old(offset) + k && Unread() == s[k..] && SameEnd(s, k)
        decreases size - offset
      {
        SkipOne(s, k);
        offset := offset + c + 1;
        if offset >= size - 1 {
          return true;
        }
        k := k + (c as nat + 1);
        c := GetByte(0);
      }
      SkipOne(s, k);
      offset := offset + 1;
      failed := false;
    }
  }

  /** Skipping sub-blocks from the front ends where it ends from k on. */
  ghost predicate SameEnd(s: seq<byte>, k: nat) {
    && k < |s| && (Skipped(s).Some? <==> Skipped(s[k..]).Some?)
    && (Skipped(s).Some? ==> Skipped(s).value == k + Skipped(s[k..]).value)
  }

  lemma SkipOne(s: seq<byte>, k: nat)
    requires SameEnd(s, k)
    ensures s[k] == 0 ==> Skipped(s) == Some(k + 1)
    ensures s[k] != 0 && k + s[k] + 1 >= |s| - 1 ==> Skipped(s) == None
    ensures s[k] != 0 && k + s[k] + 1 < |s| - 1 ==> SameEnd(s, k + (s[k] as nat + 1))
  {
    hide Skipped;
    var length := s[k] as nat + 1;
    if s[k] == 0 {
      SkippedEmpty(s[k..]);
    } else if k + length < |s| - 1 {
      assert s[k..][length..] == s[k + length..];
      SkippedMore(s[k..], s[k + length..]);
    } else {
      SkippedTooFar(s[k..]);
    }
  }

  lemma SkippedEmpty(t: seq<byte>)
    requires t != [] && t[0] == 0
    ensures Skipped(t) == Some(1)
  {}

  lemma SkippedTooFar(t: seq<byte>)
    requires t != [] && t[0] != 0 && t[0] + 1 >= |t| - 1
    ensures Skipped(t) == None
  {}

  lemma SkippedMore(t: seq<byte>, tail: seq<byte>)
    requires t != [] && t[0] != 0 && t[0] + 1 < |t| - 1 && tail == t[t[0] as nat + 1..]
    ensures Skipped(t) == if Skipped(tail).None? then None else Some(t[0] as nat + 1 + Skipped(tail).value)
  {}

  /** Two buffers that share nothing. */
  ghost predicate Apart(src: BinBuffer, dst: BinBuffer)
    reads src, dst
  {
    src.Valid() && dst.Valid() && src != dst && src.buffer != dst.buffer
  }

  /** The first k of the bytes s have been read from src and written behind what dst had. */
  ghost predicate Copied(src: BinBuffer, dst: BinBuffer, s: seq<byte>, had: seq<byte>, k: nat)
    reads src, src.buffer, dst, dst.buffer
  {
    Apart(src, dst) && k <= |s| && src.Unread() == s[k..] && dst.Written() == had + s[..k]
  }

  method CopyMore(src: BinBuffer, dst: BinBuffer, length: nat, ghost s: seq<byte>, ghost had: seq<byte>, ghost k: nat)
    returns (failed: bool)
    requires Copied(src, dst, s, had, k)
    modifies src`offset, dst, dst.buffer
    ensures Apart(src, dst) && (dst.buffer == old(dst.buffer) || fresh(dst.buffer))
    ensures failed <==> length == 0 || k + length > |s|
    ensures !failed ==> Copied(src, dst, s, had, k + length)
  {
    failed := dst.CopyFrom(src, length);
    if !failed {
      MoreOf(s, had, k, length);
    }
  }

  /** What copying some more bytes adds up to. */
  lemma MoreOf(s: seq<byte>, had: seq<byte>, k: nat, length: nat)
    requires k + length <= |s|
    ensures had + s[..k] + s[k..][..length] == had + s[..k + length]
    ensures s[k..][length..] == s[k + length..]
  {
    assert s[..k] + s[k..][..length] == s[..k + length];
    Regroup(had, s[..k], s[k..][..length]);
  }

  /** The sub-blocks, up to the empty one. */
  method CopySubBlocks(src: BinBuffer, dst: BinBuffer, ghost s: seq<byte>, ghost had: seq<byte>, ghost head: nat)
    returns (failed: bool)
    requires Copied(src, dst, s, had, head)
    modifies src`offset, dst, dst.buffer
    ensures Apart(src, dst) && (dst.buffer == old(dst.buffer) || fresh(dst.buffer))
    ensures failed <==> SubBlocks(s[head..]).None?
    ensures !failed ==> Copied(src, dst, s, had, head + SubBlocks(s[head..]).value)
  {
    hide Copied;
    ghost var k := head;
    var c := FirstByte(src, dst, s, had, k);
    while c != 0
      invariant Copied(src, dst, s, had, k) && Apart(src, dst) && k <= |s| && c == ByteAt(s[k..], 0)
      invariant dst.buffer == old(dst.buffer) || fresh(dst.buffer)
      invariant SubBlocks(s[head..]).Some? <==> SubBlocks(s[k..]).Some?
      invariant SubBlocks(s[head..]).Some? ==> head + SubBlocks(s[head..]).value == k + SubBlocks(s[k..]).value
      decreases |s| - k
    {
      var length := c as int + 1;
      failed := CopyMore(src, dst, length, s, had, k);
      if failed {
        return;
      }
      assert s[k..][length..] == s[k + length..];
      k := k + length;
      c := FirstByte(src, dst, s, had, k);
    }
    failed := CopyMore(src, dst, 1, s, had, k);
  }

  method FirstByte(src: BinBuffer, dst: BinBuffer, ghost s: seq<byte>, ghost had: seq<byte>, ghost k: nat)
    returns (c: byte)
    requires Copied(src, dst, s, had, k)
    ensures Apart(src, dst) && k <= |s| && c == ByteAt(s[k..], 0)
  {
    c := src.GetByte(0);
  }

  /** `gif_extract_image`: the image goes behind what the buffer holds, which then is trimmed and rewound. */
  method ExtractImage(src: BinBuffer, dst: BinBuffer) returns (failed: bool)
    requires Apart(src, dst)
    modifies src`offset, dst, dst.buffer
    ensures Apart(src, dst) && (dst.buffer == old(dst.buffer) || fresh(dst.buffer))
    ensures failed <==> ImageLength(old(src.Unread())).None?
    ensures !failed ==>
              var n := ImageLength(old(src.Unread())).value;
              && src.Unread() == old(src.Unread())[n..] && dst.offset == 0
              && dst.Bytes() == old(dst.Written()) + old(src.Unread())[..n]
  {
    hide Copied, SubBlocks, MapLength;
    ghost var s, had := src.Unread(), dst.Written();
    NothingCopied(src, dst);
    var flags := src.GetByte(9);
    failed := CopyMore(src, dst, 10, s, had, 0);
    if failed {
      return;
    }
    if flags >= 0x80 {
      MapIsNotEmpty(flags);
      failed := CopyMore(src, dst, MapLength(flags), s, had, 10);
      if failed {
        return;
      }
    } else {
      MapIsNotEmpty(flags);
    }
    ghost var head := 10 + MapLength(flags);
    failed := CopyMore(src, dst, 1, s, had, head);
    if failed {
      return;
    }
    failed := CopySubBlocks(src, dst, s, had, head + 1);
    if failed {
      return;
    }
    TrimAndRewind(src, dst, s, had, ImageLength(s).value);
  }

  lemma NothingCopied(src: BinBuffer, dst: BinBuffer)
    requires Apart(src, dst)
    ensures Copied(src, dst, src.Unread(), dst.Written(), 0)
  {}

  lemma MapIsNotEmpty(flags: byte)
    ensures flags >= 0x80 <==> MapLength(flags) > 0
  {
  }

  method TrimAndRewind(src: BinBuffer, dst: BinBuffer, ghost s: seq<byte>, ghost had: seq<byte>, ghost n: nat)
    requires Copied(src, dst, s, had, n)
    modifies dst
    ensures Apart(src, dst) && fresh(dst.buffer)
    ensures n <= |s| && src.Unread() == s[n..] && dst.offset == 0 && dst.Bytes() == had + s[..n]
  {
    dst.Reallocate(dst.offset);
    dst.offset := 0;
  }

  // ----- The loop -------------------------------------------------------------------------

  /** The image buffer holds what is kept: rewound if it is a complete image. */
  ghost predicate Holds(image: BinBuffer, kept: Kept)
    requires image.Valid()
    reads image, image.buffer
  {
    if kept.complete then image.offset == 0 && image.size > 0 && image.Bytes() == kept.bytes
    else image.Written() == kept.bytes && (image.offset == 0 ==> image.size == 0)
  }

  datatype Turn = GiveUp | Write | GoOn

  /** The turn has done what the step says. Without a complete image the writing fails later, as the
      offset of the image buffer is not zero. */
  ghost predicate Done(turn: Turn, step: Step, src: BinBuffer, image: BinBuffer, s: seq<byte>, buffered: bool)
    requires Apart(src, image)
    reads src, src.buffer, image, image.buffer
  {
    match step
    case Failed => turn == GiveUp || (turn == Write && image.offset > 0)
    case Finished(bytes) => turn == Write && image.offset == 0 && image.size > 0 && image.Bytes() == bytes
    case Advanced(n, next) =>
      && turn == GoOn && n <= |s| && src.Unread() == s[n..]
      && buffered == next.complete && Holds(image, next)
  }

  /** One turn of the loop of `gif_deanimate`. */
  method OneBlock(src: BinBuffer, image: BinBuffer, imageBuffered: bool, first: bool, ghost kept: Kept)
    returns (turn: Turn, buffered: bool)
    requires Apart(src, image) && src.offset < src.size && Holds(image, kept) && imageBuffered == kept.complete
    modifies src`offset, image, image.buffer
    ensures image.buffer == old(image.buffer) || fresh(image.buffer)
    ensures turn != GiveUp ==> Apart(src, image)
    ensures turn == GiveUp ==> NextStep(old(src.Unread()), kept, first).Failed?
    ensures turn != GiveUp ==>
              Done(turn, NextStep(old(src.Unread()), kept, first), src, image, old(src.Unread()), buffered)
  {
    hide ImageLength, ExtensionLength;
    buffered := imageBuffered;
    var c := src.GetByte(0);
    if c == TRAILER {
      turn := if image.size == 0 then GiveUp else Write;
    } else if c == IMAGE {
      turn, buffered := OneImage(src, image, buffered, first, kept);
    } else if c == EXTENSION {
      c := src.GetByte(1);
      if c == GRAPHIC_CONTROL {
        turn, buffered := OneGraphicControl(src, image, buffered, first, kept);
      } else if c == APPLICATION {
        turn := SkipExtension(src, 14);
      } else if c == COMMENT {
        turn := SkipExtension(src, 2);
      } else if c == PLAIN_TEXT {
        turn := SkipExtension(src, 15);
      } else {
        turn := GiveUp;
      }
    } else {
      turn := GiveUp;
    }
  }

  method OneImage(src: BinBuffer, image: BinBuffer, imageBuffered: bool, first: bool, ghost kept: Kept)
    returns (turn: Turn, buffered: bool)
    requires Apart(src, image) && src.offset < src.size && Holds(image, kept) && imageBuffered == kept.complete
    requires src.Unread()[0] == IMAGE
    modifies src`offset, image, image.buffer
    ensures image.buffer == old(image.buffer) || fresh(image.buffer)
    ensures turn != GiveUp ==> Apart(src, image)
    ensures turn == GiveUp ==> NextStep(old(src.Unread()), kept, first).Failed?
    ensures turn != GiveUp ==>
              Done(turn, NextStep(old(src.Unread()), kept, first), src, image, old(src.Unread()), buffered)
  {
    hide ImageLength, ExtensionLength;
    DiscardImage(src, image, imageBuffered, kept);
    var failed := ExtractImage(src, image);
    buffered := true;
    turn := if failed then GiveUp else if first then Write else GoOn;
  }

  method OneGraphicControl(src: BinBuffer, image: BinBuffer, imageBuffered: bool, first: bool, ghost kept: Kept)
    returns (turn: Turn, buffered: bool)
    requires Apart(src, image) && src.offset < src.size && Holds(image, kept) && imageBuffered == kept.complete
    requires src.Unread()[0] == EXTENSION && ByteAt(src.Unread(), 1) == GRAPHIC_CONTROL
    modifies src`offset, image, image.buffer
    ensures image.buffer == old(image.buffer) || fresh(image.buffer)
    ensures turn != GiveUp ==> Apart(src, image)
    ensures turn == GiveUp ==> NextStep(old(src.Unread()), kept, first).Failed?
    ensures turn != GiveUp ==>
              Done(turn, NextStep(old(src.Unread()), kept, first), src, image, old(src.Unread()), buffered)
  {
    hide ImageLength, ExtensionLength;
    DiscardImage(src, image, imageBuffered, kept);
    buffered := false;
    var failed := image.CopyFrom(src, 8);
    turn := if failed then GiveUp else GoOn;
  }

  method DiscardImage(src: BinBuffer, image: BinBuffer, buffered: bool, ghost kept: Kept)
    requires Apart(src, image) && Holds(image, kept) && buffered == kept.complete
    modifies image`offset
    ensures Apart(src, image) && image.Written() == if kept.complete then [] else kept.bytes
  {
    if buffered {
      image.offset := 0;
    }
  }

  method SkipExtension(src: BinBuffer, head: nat) returns (turn: Turn)
    requires src.Valid()
    modifies src`offset
    ensures turn == if ExtensionLength(old(src.Unread()), head).None? then GiveUp else GoOn
    ensures turn == GoOn ==>
              src.Valid() && src.Unread() == old(src.Unread())[ExtensionLength(old(src.Unread()), head).value..]
  {
    hide Skipped;
    ghost var s := src.Unread();
    src.offset := src.offset + head;
    if src.offset >= src.size {
      return GiveUp;
    }
    assert src.Unread() == s[head..];
    var failed := src.SkipDataBlock();
    turn := if failed then GiveUp else GoOn;
  }

  /** The image that is written in the end, or a buffer from which writing fails. */
  ghost predicate Found(turn: Turn, image: BinBuffer, result: Option<seq<byte>>)
    reads image, image.buffer
  {
    match result
    case None => turn == GiveUp || (turn == Write && image.Valid() && image.offset > 0)
    case Some(bytes) => turn == Write && image.Valid() && image.offset == 0 && image.size > 0 && image.Bytes() == bytes
  }

  /** The loop of `gif_deanimate`. */
  method KeepImage(src: BinBuffer, first: bool) returns (turn: Turn, image: BinBuffer)
    requires src.Valid()
    modifies src`offset
    ensures fresh(image) && fresh(image.buffer)
    ensures Found(turn, image, KeptImage(old(src.Unread()), Kept([], false), first))
  {
    hide NextStep, Holds;
    image := new BinBuffer([]);
    ghost var s, kept := src.Unread(), Kept([], false);
    NothingHeld(image);
    var imageBuffered := false;
    while src.offset < src.size
      invariant Apart(src, image) && fresh(image) && fresh(image.buffer)
      invariant Holds(image, kept) && imageBuffered == kept.complete
      invariant KeptImage(s, Kept([], false), first) == KeptImage(src.Unread(), kept, first)
      decreases src.size - src.offset
    {
      ghost var now := src.Unread();
      turn, imageBuffered := OneBlock(src, image, imageBuffered, first, kept);
      if turn != GoOn {
        return;
      }
      kept := NextStep(now, kept, first).kept;
    }
    turn := GiveUp;
  }

  lemma NothingHeld(image: BinBuffer)
    requires image.Valid() && image.size == 0
    ensures Holds(image, Kept([], false))
  {}

  /** The header, the logical screen descriptor and the global colour table. */
  method CopyHead(src: BinBuffer, dst: BinBuffer) returns (failed: bool)
    requires Apart(src, dst) && src.offset == 0
    modifies src`offset, dst, dst.buffer
    ensures Apart(src, dst) && (dst.buffer == old(dst.buffer) || fresh(dst.buffer))
    ensures failed <==> HeadLength(old(src.Bytes())).None?
    ensures !failed ==> Copied(src, dst, old(src.Bytes()), old(dst.Written()), HeadLength(old(src.Bytes())).value)
  {
    hide Copied, MapLength;
    ghost var b, had := src.Bytes(), dst.Written();
    if src.size <= 10 {
      return true;
    }
    NothingCopied(src, dst);
    assert src.Unread() == b;
    var flags := src.GetByte(10);
    if src.buffer[..6] != GIF89A && src.buffer[..6] != GIF87A {
      return true;
    }
    failed := CopyMore(src, dst, 13, b, had, 0);
    MapIsNotEmpty(flags);
    if !failed && flags >= 0x80 {
      failed := CopyMore(src, dst, MapLength(flags), b, had, 13);
    }
  }

  /** The image and the trailer. */
  method WriteImage(image: BinBuffer, dst: BinBuffer, ghost result: Option<seq<byte>>) returns (failed: bool)
    requires Apart(image, dst) && Found(Write, image, result)
    modifies image`offset, dst, dst.buffer
    ensures failed <==> result.None?
    ensures !failed ==> dst.Valid() && dst.Written() == old(dst.Written()) + result.value + [TRAILER]
  {
    failed := dst.CopyFrom(image, image.size);
    if !failed {
      dst.Extend(1);
      dst.buffer[dst.offset] := TRAILER;
      dst.offset := dst.offset + 1;
    }
  }

  /** `gif_deanimate`, which the caller gives a source that has not been read. */
  method GifDeanimate(src: BinBuffer, dst: BinBuffer, first: bool) returns (failed: bool)
    requires Apart(src, dst) && src.offset == 0
    modifies src`offset, dst, dst.buffer
    ensures failed <==> Deanimated(old(src.Bytes()), first).None?
    ensures !failed ==> dst.Valid() && dst.Written() == old(dst.Written()) + Deanimated(old(src.Bytes()), first).value
  {
    hide HeadLength, KeptImage;
    ghost var b, had := src.Bytes(), dst.Written();
    failed := CopyHead(src, dst);
    if failed {
      return;
    }
    ghost var n := HeadLength(b).value;
    assert src.Unread() == b[n..] && dst.Written() == had + b[..n];
    var turn, image := KeepImage(src, first);
    if turn != Write {
      return true;
    }
    failed := WriteImage(image, dst, KeptImage(b[n..], Kept([], false), first));
    if !failed {
      var kept := KeptImage(b[n..], Kept([], false), first).value;
      assert had + b[..n] + kept + [TRAILER] == had + (b[..n] + kept + [TRAILER]);
    }
  }
}
