/** De-animation of GIF images in deanimate.c. The format is that of sections
    17 to 27 of the GIF89a specification. The functions describe what is read and
    kept, on sequences of bytes; the methods of `BinBuffers` work on growing buffers. */
module Gif {
  import opened Text

  type byte = x: int | 0 <= x < 256

  const TRAILER: byte := 0x3b
  const IMAGE: byte := 0x2c
  const EXTENSION: byte := 0x21
  const GRAPHIC_CONTROL: byte := 0xf9
  const APPLICATION: byte := 0xff
  const COMMENT: byte := 0xfe
  const PLAIN_TEXT: byte := 0x01

  /** `buf_getbyte` */
  function ByteAt(s: seq<byte>, i: nat): byte {
    if i < |s| then s[i] else 0
  }

  /** The length of the colour table that a byte of flags announces; 0 for none. */
  function MapLength(flags: byte): nat {
    if flags >= 0x80 then 3 * Power(flags % 8 + 1) else 0
  }

  // ----- Lengths of blocks at the front of the unread bytes -----------------------

  /** Data sub-blocks up to and including the empty one, all of which must be there. */
  function SubBlocks(s: seq<byte>): (n: Option<nat>)
    ensures n.Some? ==> 0 < n.value <= |s|
  {
    if s == [] then None
    else if s[0] == 0 then Some(1)
    else if s[0] + 1 > |s| then None
    else match SubBlocks(s[s[0] + 1..]) case None => None case Some(n) => Some(s[0] + 1 + n)
  }

  /** `gif_skip_data_block` */
  function Skipped(s: seq<byte>): (n: Option<nat>)
    requires s != []
    ensures n.Some? ==> 0 < n.value <= |s|
  {
    if s[0] == 0 then Some(1)
    else if s[0] + 1 >= |s| - 1 then None
    else match Skipped(s[s[0] + 1..]) case None => None case Some(n) => Some(s[0] + 1 + n)
  }

  /** An image descriptor, its local colour table, the code size and the image data. */
  function ImageLength(s: seq<byte>): (n: Option<nat>)
    ensures n.Some? ==> 0 < n.value <= |s|
  {
    if |s| < 10 then None
    else
      var head := 10 + MapLength(s[9]) + 1;
      if head > |s| then None
      else match SubBlocks(s[head..]) case None => None case Some(n) => Some(head + n)
  }

  /** An extension that is not kept: a head and data sub-blocks. */
  function ExtensionLength(s: seq<byte>, head: nat): (n: Option<nat>)
    ensures n.Some? ==> head < n.value <= |s|
  {
    if head >= |s| then None
    else match Skipped(s[head..]) case None => None case Some(n) => Some(head + n)
  }

  // ----- One pass over the blocks -----------------------------------------------------

  /** What is kept: graphic control extensions, and the image they belong to once it is complete. */
  datatype Kept = Kept(bytes: seq<byte>, complete: bool) {
    /** A complete image is discarded when more is added. */
    function Plus(block: seq<byte>, isImage: bool): Kept {
      Kept((if complete then [] else bytes) + block, isImage)
    }
  }

  datatype Step = Failed | Finished(image: seq<byte>) | Advanced(length: nat, kept: Kept)

  function SkipStep(length: Option<nat>, kept: Kept): Step {
    if length.None? then Failed else Advanced(length.value, kept)
  }

  /** What one turn of the loop of `gif_deanimate` does with the unread bytes. */
  function NextStep(s: seq<byte>, kept: Kept, first: bool): (step: Step)
    requires s != []
    ensures step.Advanced? ==> 0 < step.length <= |s|
  {
    if s[0] == TRAILER then
      if kept.complete then Finished(kept.bytes) else Failed
    else if s[0] == IMAGE then
      match ImageLength(s)
      case None => Failed
      case Some(n) => if first then Finished(kept.Plus(s[..n], true).bytes) else Advanced(n, kept.Plus(s[..n], true))
    else if s[0] != EXTENSION then Failed
    else
      var kind := ByteAt(s, 1);
      if kind == GRAPHIC_CONTROL then
        if |s| < 8 then Failed else Advanced(8, kept.Plus(s[..8], false))
      else if kind == APPLICATION then SkipStep(ExtensionLength(s, 14), kept)
      else if kind == COMMENT then SkipStep(ExtensionLength(s, 2), kept)
      else if kind == PLAIN_TEXT then SkipStep(ExtensionLength(s, 15), kept)
      else Failed
  }

  function KeptImage(s: seq<byte>, kept: Kept, first: bool): Option<seq<byte>> {
    if s == [] then None
    else
      match NextStep(s, kept, first)
      case Failed => None
      case Finished(image) => Some(image)
      case Advanced(n, next) => KeptImage(s[n..], next, first)
  }

  const GIF89A: seq<byte> := [0x47, 0x49, 0x46, 0x38, 0x39, 0x61]
  const GIF87A: seq<byte> := [0x47, 0x49, 0x46, 0x38, 0x37, 0x61]

  /** The header, the logical screen descriptor and the global colour table; None if they are not all there. */
  function HeadLength(b: seq<byte>): (n: Option<nat>)
    ensures n.Some? ==> 13 <= n.value <= |b|
  {
    if |b| < 13 || !(b[..6] == GIF89A || b[..6] == GIF87A) || 13 + MapLength(b[10]) > |b| then None
    else Some(13 + MapLength(b[10]))
  }

  /** `gif_deanimate` */
  function Deanimated(b: seq<byte>, first: bool): Option<seq<byte>> {
    match HeadLength(b)
    case None => None
    case Some(n) =>
      match KeptImage(b[n..], Kept([], false), first)
      case None => None
      case Some(image) => Some(b[..n] + image + [TRAILER])
  }

  // ----- The same on blocks: what is kept, without discarding ---------------------------

  /** A block of the data stream. */
  datatype Block = GraphicControl(bytes: seq<byte>) | Image(bytes: seq<byte>) | Other(length: nat) {
    function Length(): nat {
      if Other? then length else |bytes|
    }
  }

  function OtherBlock(length: Option<nat>): Option<Block> {
    if length.None? then None else Some(Other(length.value))
  }

  /** The block at the front; None at the trailer, the end of the data and what is no block. */
  function BlockAt(s: seq<byte>): (b: Option<Block>)
    ensures b.Some? ==> 0 < b.value.Length() <= |s|
  {
    if s == [] then None
    else if s[0] == IMAGE then
      match ImageLength(s) case None => None case Some(n) => Some(Image(s[..n]))
    else if s[0] != EXTENSION then None
    else
      match ByteAt(s, 1)
      case 0xf9 => if |s| < 8 then None else Some(GraphicControl(s[..8]))
      case 0xff => OtherBlock(ExtensionLength(s, 14))
      case 0xfe => OtherBlock(ExtensionLength(s, 2))
      case 0x01 => OtherBlock(ExtensionLength(s, 15))
      case _ => None
  }

  /** All blocks of a data stream that ends with a trailer, or those up to the first image. */
  function Blocks(s: seq<byte>, first: bool): Option<seq<Block>> {
    if s != [] && s[0] == TRAILER then Some([])
    else
      match BlockAt(s)
      case None => None
      case Some(b) =>
        if first && b.Image? then Some([b])
        else match Blocks(s[b.Length()..], first) case None => None case Some(more) => Some([b] + more)
  }

  /** The blocks that are not left out. */
  function Wanted(blocks: seq<Block>): seq<Block> {
    if blocks == [] then []
    else if blocks[|blocks| - 1].Other? then Wanted(blocks[..|blocks| - 1])
    else Wanted(blocks[..|blocks| - 1]) + [blocks[|blocks| - 1]]
  }

  /** The bytes of the graphic control extensions at the end of a list of wanted blocks. */
  function ControlsAtEnd(wanted: seq<Block>): seq<byte> {
    if wanted == [] || !wanted[|wanted| - 1].GraphicControl? then []
    else ControlsAtEnd(wanted[..|wanted| - 1]) + wanted[|wanted| - 1].bytes
  }

  /** The last image with the graphic control extensions since the image before it, if nothing
      wanted comes after it. */
  function LastImage(wanted: seq<Block>): Option<seq<byte>> {
    if wanted == [] || !wanted[|wanted| - 1].Image? then None
    else Some(ControlsAtEnd(wanted[..|wanted| - 1]) + wanted[|wanted| - 1].bytes)
  }

  /** What the loop has kept after a list of blocks. */
  function KeptOf(wanted: seq<Block>): Kept {
    if LastImage(wanted).Some? then Kept(LastImage(wanted).value, true) else Kept(ControlsAtEnd(wanted), false)
  }

  function KeptWith(kept: Kept, b: Block): Kept {
    if b.Other? then kept else kept.Plus(b.bytes, b.Image?)
  }

  lemma StepOfBlock(s: seq<byte>, kept: Kept, first: bool)
    requires s != [] && s[0] != TRAILER
    ensures NextStep(s, kept, first)
         == if BlockAt(s).None? then Failed
            else var b := BlockAt(s).value;
                 if first && b.Image? then Finished(KeptWith(kept, b).bytes)
                 else Advanced(b.Length(), KeptWith(kept, b))
  {
    hide ImageLength, ExtensionLength;
  }

  lemma KeptOfMore(blocks: seq<Block>, b: Block)
    ensures KeptOf(Wanted(blocks + [b])) == KeptWith(KeptOf(Wanted(blocks)), b)
  {
    assert (blocks + [b])[..|blocks|] == blocks;
    if !b.Other? {
      KeptOfOneMore(Wanted(blocks), b);
    }
  }

  lemma KeptOfOneMore(wanted: seq<Block>, b: Block)
    requires !b.Other?
    ensures KeptOf(wanted + [b]) == KeptWith(KeptOf(wanted), b)
  {
    var more := wanted + [b];
    assert more[..|wanted|] == wanted && more[|more| - 1] == b;
    if LastImage(wanted).Some? {
      assert ControlsAtEnd(wanted) == [];
    }
  }

  lemma {:induction false} KeptImageOfBlocks(s: seq<byte>, before: seq<Block>, first: bool)
    requires first ==> !KeptOf(Wanted(before)).complete
    ensures KeptImage(s, KeptOf(Wanted(before)), first)
         == match Blocks(s, first)
            case None => None
            case Some(blocks) => LastImage(Wanted(before + blocks))
    decreases |s|
  {
    hide NextStep, BlockAt, Wanted, KeptOf, LastImage;
    if s == [] {
      NoBlock();
    } else if s[0] == TRAILER {
      assert before + [] == before;
      AtTrailer(s, before, first);
    } else {
      StepOfBlock(s, KeptOf(Wanted(before)), first);
      if BlockAt(s).Some? {
        var b := BlockAt(s).value;
        KeptOfMore(before, b);
        if first && b.Image? {
          ImageIsLast(before, b);
        } else {
          ControlIsNotComplete(before, b, first);
          KeptImageOfBlocks(s[b.Length()..], before + [b], first);
          if Blocks(s[b.Length()..], first).Some? {
            var more := Blocks(s[b.Length()..], first).value;
            assert before + [b] + more == before + ([b] + more);
          }
        }
      }
    }
  }

  lemma NoBlock()
    ensures BlockAt([]) == None
  {}

  lemma AtTrailer(s: seq<byte>, before: seq<Block>, first: bool)
    requires s != [] && s[0] == TRAILER
    ensures KeptImage(s, KeptOf(Wanted(before)), first) == LastImage(Wanted(before))
  {}

  lemma ImageIsLast(before: seq<Block>, b: Block)
    requires b.Image?
    ensures KeptOf(Wanted(before + [b])).complete
    ensures LastImage(Wanted(before + [b])) == Some(KeptOf(Wanted(before + [b])).bytes)
  {
    hide Wanted, ControlsAtEnd;
    WantedEndsWith(before, b);
  }

  lemma WantedEndsWith(before: seq<Block>, b: Block)
    requires !b.Other?
    ensures Wanted(before + [b]) == Wanted(before) + [b]
  {
    assert (before + [b])[..|before|] == before;
  }

  lemma ControlIsNotComplete(before: seq<Block>, b: Block, first: bool)
    requires first ==> !b.Image? && !KeptOf(Wanted(before)).complete
    ensures first ==> !KeptOf(Wanted(before + [b])).complete
  {
    hide Wanted, KeptOf;
    KeptOfMore(before, b);
  }

  /** The output is the header and global colour table, the graphic control extensions since the
      previous image, the first or last image, and a trailer; there is one exactly if the blocks
      can be read and nothing but skipped extensions follows that image. */
  lemma OutputShape(b: seq<byte>, first: bool)
    ensures Deanimated(b, first)
         == match HeadLength(b)
            case None => None
            case Some(n) =>
              match Blocks(b[n..], first)
              case None => None
              case Some(blocks) =>
                match LastImage(Wanted(blocks))
                case None => None
                case Some(image) => Some(b[..n] + image + [TRAILER])
  {
    hide KeptImage, Blocks, LastImage;
    if HeadLength(b).Some? {
      NothingKept();
      KeptImageOfBlocks(b[HeadLength(b).value..], [], first);
      if Blocks(b[HeadLength(b).value..], first).Some? {
        assert [] + Blocks(b[HeadLength(b).value..], first).value == Blocks(b[HeadLength(b).value..], first).value;
      }
    }
  }

  lemma NothingKept()
    ensures KeptOf(Wanted([])) == Kept([], false)
  {}

  // ----- De-animating twice ------------------------------------------------------------

  lemma {:induction false} SubBlocksAreLocal(s: seq<byte>, rest: seq<byte>)
    requires SubBlocks(s).Some?
    ensures SubBlocks(s[..SubBlocks(s).value] + rest) == SubBlocks(s)
    decreases |s|
  {
    var n := SubBlocks(s).value;
    if s[0] != 0 {
      var k := s[0] as int + 1;
      SubBlocksAreLocal(s[k..], rest);
      assert (s[..n] + rest)[k..] == s[k..][..n - k] + rest;
    }
  }

  /** An image is read the same, whatever follows it. */
  lemma ImageIsLocal(s: seq<byte>, rest: seq<byte>)
    requires ImageLength(s).Some?
    ensures ImageLength(s[..ImageLength(s).value] + rest) == ImageLength(s)
  {
    hide SubBlocks, MapLength;
    var n, head := ImageLength(s).value, 10 + MapLength(s[9]) + 1;
    SubBlocksAreLocal(s[head..], rest);
    var again := s[..n] + rest;
    assert again[9] == s[9];
    assert again[head..] == s[head..][..n - head] + rest;
  }

  /** A block that is left out, or can be read back from its own bytes. */
  ghost predicate Readable(b: Block) {
    b.Other? || (b.bytes != [] && b.bytes[0] != TRAILER && BlockAt(b.bytes) == Some(b))
  }

  lemma BlockIsReadable(s: seq<byte>)
    requires BlockAt(s).Some?
    ensures Readable(BlockAt(s).value)
  {
    hide ImageLength, ExtensionLength;
    var b := BlockAt(s).value;
    if !b.Other? {
      assert b.bytes[..|b.bytes|] == b.bytes;
    }
    if b.Image? {
      ImageIsLocal(s, []);
      assert b.bytes + [] == b.bytes;
    }
  }

  lemma ReadableIsLocal(b: Block, rest: seq<byte>)
    requires Readable(b) && !b.Other?
    ensures BlockAt(b.bytes + rest) == Some(b) && (b.bytes + rest)[0] != TRAILER
  {
    hide ImageLength, ExtensionLength;
    if b.Image? {
      ImageIsLocal(b.bytes, rest);
      assert b.bytes[..|b.bytes|] == b.bytes;
    }
  }

  lemma {:induction false} BlocksAreReadable(s: seq<byte>, first: bool)
    requires Blocks(s, first).Some?
    ensures forall i | 0 <= i < |Blocks(s, first).value| :: Readable(Blocks(s, first).value[i])
    decreases |s|
  {
    hide Readable, BlockAt;
    if !(s != [] && s[0] == TRAILER) {
      BlockIsReadable(s);
      var b := BlockAt(s).value;
      if !(first && b.Image?) {
        BlocksAreReadable(s[b.Length()..], first);
      }
    }
  }

  lemma {:induction false} WantedAreReadable(blocks: seq<Block>)
    requires forall i | 0 <= i < |blocks| :: Readable(blocks[i])
    ensures forall i | 0 <= i < |Wanted(blocks)| :: Readable(Wanted(blocks)[i]) && !Wanted(blocks)[i].Other?
  {
    hide Readable;
    if blocks != [] {
      WantedAreReadable(blocks[..|blocks| - 1]);
    }
  }

  lemma OneControlIsReadBack(b: Block, kept: seq<byte>, rest: seq<byte>, first: bool)
    requires Readable(b) && b.GraphicControl?
    ensures KeptImage(b.bytes + rest, Kept(kept, false), first) == KeptImage(rest, Kept(kept + b.bytes, false), first)
  {
    hide NextStep, BlockAt;
    ReadableIsLocal(b, rest);
    StepOfBlock(b.bytes + rest, Kept(kept, false), first);
    assert (b.bytes + rest)[|b.bytes|..] == rest;
  }

  lemma {:induction false} ControlsAreReadBack(wanted: seq<Block>, kept: seq<byte>, rest: seq<byte>, first: bool)
    requires forall i | 0 <= i < |wanted| :: Readable(wanted[i])
    ensures KeptImage(ControlsAtEnd(wanted) + rest, Kept(kept, false), first)
         == KeptImage(rest, Kept(kept + ControlsAtEnd(wanted), false), first)
  {
    hide KeptImage, Readable;
    if ControlsAtEnd(wanted) == [] {
      assert [] + rest == rest && kept + [] == kept;
    } else {
      var b, front := wanted[|wanted| - 1], ControlsAtEnd(wanted[..|wanted| - 1]);
      ControlsAreReadBack(wanted[..|wanted| - 1], kept, b.bytes + rest, first);
      OneControlIsReadBack(b, kept + front, rest, first);
      assert front + (b.bytes + rest) == front + b.bytes + rest;
      assert kept + front + b.bytes == kept + (front + b.bytes);
    }
  }

  lemma ImageIsReadBack(b: Block, kept: seq<byte>, first: bool)
    requires Readable(b) && b.Image?
    ensures KeptImage(b.bytes + [TRAILER], Kept(kept, false), first) == Some(kept + b.bytes)
  {
    hide BlockAt;
    var s := b.bytes + [TRAILER];
    ReadableIsLocal(b, [TRAILER]);
    StepOfBlock(s, Kept(kept, false), first);
    assert s[|b.bytes|..] == [TRAILER];
    assert KeptImage([TRAILER], Kept(kept + b.bytes, true), first) == Some(kept + b.bytes);
  }

  lemma HeadIsReadBack(b: seq<byte>, rest: seq<byte>)
    requires HeadLength(b).Some?
    ensures HeadLength(b[..HeadLength(b).value] + rest) == HeadLength(b)
  {
    hide MapLength;
    var n := HeadLength(b).value;
    var out := b[..n] + rest;
    assert out[..6] == b[..6] && out[10] == b[10];
  }

  /** De-animating the output in either mode gives the same bytes again. */
  lemma Idempotent(b: seq<byte>, first: bool, again: bool)
    requires Deanimated(b, first).Some?
    ensures Deanimated(Deanimated(b, first).value, again) == Deanimated(b, first)
  {
    hide HeadLength, Blocks, KeptImage, Readable, Wanted, ControlsAtEnd;
    OutputShape(b, first);
    var n, out := HeadLength(b).value, Deanimated(b, first).value;
    var blocks := Blocks(b[n..], first).value;
    var wanted := Wanted(blocks);
    BlocksAreReadable(b[n..], first);
    WantedAreReadable(blocks);
    var last, controls := wanted[|wanted| - 1], wanted[..|wanted| - 1];
    var image := ControlsAtEnd(controls) + last.bytes;
    ControlsAreReadBack(controls, [], last.bytes + [TRAILER], again);
    ImageIsReadBack(last, ControlsAtEnd(controls), again);
    assert ControlsAtEnd(controls) + (last.bytes + [TRAILER]) == image + [TRAILER];
    assert [] + ControlsAtEnd(controls) == ControlsAtEnd(controls);
    HeadIsReadBack(b, image + [TRAILER]);
    assert out == b[..n] + (image + [TRAILER]);
    assert out[n..] == image + [TRAILER] && out[..n] == b[..n];
  }
}
