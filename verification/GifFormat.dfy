/** GIF data streams as values, written out as sections 17 to 27 of the GIF89a
    specification have it, and what de-animation makes of every one of them. */
module GifFormat {
  import opened Text
  import opened Gif

  datatype Color = Color(red: byte, green: byte, blue: byte)

  /** The number of entries of a colour table for each value of its size field: 2^(N+1). */
  const TABLE_SIZES: seq<nat> := [2, 4, 8, 16, 32, 64, 128, 256]

  /** A colour table that may be left out, and its size field, which is there in any case. */
  datatype Table = Table(present: bool, sizeField: nat, colors: seq<Color>) {
    ghost predicate Valid() {
      sizeField < 8 && |colors| == if present then TABLE_SIZES[sizeField] else 0
    }
  }

  function WrittenColors(colors: seq<Color>): seq<byte> {
    if colors == [] then [] else [colors[0].red, colors[0].green, colors[0].blue] + WrittenColors(colors[1..])
  }

  /** Data sub-blocks of 1 to 255 bytes, with the block terminator. */
  function WrittenData(data: seq<seq<byte>>): seq<byte>
    requires forall i | 0 <= i < |data| :: 0 < |data[i]| < 256
  {
    if data == [] then [0] else [|data[0]|] + data[0] + WrittenData(data[1..])
  }

  /** The blocks between the global colour table and the trailer. */
  datatype GifBlock =
    | Picture(place: seq<byte>, table: Table, otherFlags: nat, codeSize: byte, data: seq<seq<byte>>)
    | Control(fields: seq<byte>)
    | Application(identifier: seq<byte>, data: seq<seq<byte>>)
    | Comment(data: seq<seq<byte>>)
    | PlainText(head: seq<byte>, data: seq<seq<byte>>)
  {
    ghost predicate Valid() {
      && (!Control? ==> forall i | 0 <= i < |data| :: 0 < |data[i]| < 256)
      && match this
         case Picture(place, table, otherFlags, _, _) => |place| == 8 && table.Valid() && otherFlags < 16
         case Control(fields) => |fields| == 4
         case Application(identifier, _) => |identifier| == 11
         case Comment(_) => true
         case PlainText(head, _) => |head| == 12
    }

    /** The flags of a picture are those of its table, interlacing, sorting and two reserved bits. */
    function Written(): seq<byte>
      requires Valid()
    {
      match this
      case Picture(place, table, otherFlags, codeSize, data) =>
        [0x2c] + place + [FlagsOf(table, otherFlags)] + WrittenColors(table.colors) + [codeSize] + WrittenData(data)
      case Control(fields) => [0x21, 0xf9, 4] + fields + [0]
      case Application(identifier, data) => [0x21, 0xff, 11] + identifier + WrittenData(data)
      case Comment(data) => [0x21, 0xfe] + WrittenData(data)
      case PlainText(head, data) => [0x21, 0x01, 12] + head + WrittenData(data)
    }
  }

  function FlagsOf(table: Table, otherFlags: nat): byte
    requires table.sizeField < 8 && otherFlags < 16
  {
    (if table.present then 0x80 else 0) + 8 * otherFlags + table.sizeField
  }

  /** A data stream. `screen` is the logical screen's width and height, `trailing` the background
      colour and the aspect ratio. */
  datatype GifStream = GifStream(
    version: char, screen: seq<byte>, table: Table, otherFlags: nat, trailing: seq<byte>, blocks: seq<GifBlock>)
  {
    ghost predicate Valid() {
      && version in {'7', '9'} && |screen| == 4 && table.Valid() && otherFlags < 16 && |trailing| == 2
      && forall i | 0 <= i < |blocks| :: blocks[i].Valid()
    }

    /** The signature and version, the logical screen descriptor and the global colour table. */
    function Head(): seq<byte>
      requires Valid()
    {
      [0x47, 0x49, 0x46, 0x38, if version == '7' then 0x37 else 0x39, 0x61]
      + screen + [FlagsOf(table, otherFlags)] + trailing + WrittenColors(table.colors)
    }

    function Written(): seq<byte>
      requires Valid()
    {
      Head() + WrittenBlocks(blocks) + [0x3b]
    }
  }

  function WrittenBlocks(blocks: seq<GifBlock>): seq<byte>
    requires forall i | 0 <= i < |blocks| :: blocks[i].Valid()
  {
    if blocks == [] then [] else blocks[0].Written() + WrittenBlocks(blocks[1..])
  }

  // ----- Blocks are read back -------------------------------------------------------

  lemma {:induction false} ColorsTakeThree(colors: seq<Color>)
    ensures |WrittenColors(colors)| == 3 * |colors|
  {
    if colors != [] {
      ColorsTakeThree(colors[1..]);
    }
  }

  lemma MapIsTable(table: Table, otherFlags: nat)
    requires table.Valid() && otherFlags < 16
    ensures MapLength(FlagsOf(table, otherFlags)) == |WrittenColors(table.colors)|
  {
    hide WrittenColors;
    ColorsTakeThree(table.colors);
    assert FlagsOf(table, otherFlags) % 8 == table.sizeField;
    PowersOfTwo(table.sizeField);
  }

  lemma PowersOfTwo(n: nat)
    requires n < 8
    ensures Power(n + 1) == TABLE_SIZES[n]
  {
    assert Power(2) == 4 && Power(4) == 16 && Power(6) == 64 && Power(8) == 256;
  }

  lemma {:induction false} DataIsRead(data: seq<seq<byte>>, rest: seq<byte>)
    requires forall i | 0 <= i < |data| :: 0 < |data[i]| < 256
    ensures SubBlocks(WrittenData(data) + rest) == Some(|WrittenData(data)|)
    ensures rest != [] ==> Skipped(WrittenData(data) + rest) == Some(|WrittenData(data)|)
  {
    var s := WrittenData(data) + rest;
    if data != [] {
      var n := |data[0]|;
      assert s[n + 1..] == WrittenData(data[1..]) + rest;
      DataIsRead(data[1..], rest);
    }
  }

  /** Skipping asks for one more byte behind sub-blocks, which the trailer is in a whole stream. */
  lemma {:induction false} DataAtTheEnd(data: seq<seq<byte>>)
    requires data != [] && forall i | 0 <= i < |data| :: 0 < |data[i]| < 256
    ensures Skipped(WrittenData(data)).None? && SubBlocks(WrittenData(data)) == Some(|WrittenData(data)|)
  {
    var s, n := WrittenData(data), |data[0]|;
    assert s[n + 1..] == WrittenData(data[1..]);
    DataIsRead(data, []);
    assert s + [] == s;
    if |data| > 1 {
      DataAtTheEnd(data[1..]);
    }
  }

  ghost predicate AllValid(blocks: seq<GifBlock>) {
    forall i | 0 <= i < |blocks| :: blocks[i].Valid()
  }

  ghost predicate Pictureless(blocks: seq<GifBlock>) {
    forall i | 0 <= i < |blocks| :: !blocks[i].Picture?
  }

  /** Neither a picture nor a graphic control extension. */
  ghost predicate LeftOut(blocks: seq<GifBlock>) {
    forall i | 0 <= i < |blocks| :: !blocks[i].Picture? && !blocks[i].Control?
  }

  ghost predicate EndsWithPicture(blocks: seq<GifBlock>) {
    blocks == [] || blocks[|blocks| - 1].Picture?
  }

  /** What the reader sees in a block. */
  function AsBlock(b: GifBlock): Block
    requires b.Valid()
  {
    match b
    case Picture(_, _, _, _, _) => Image(b.Written())
    case Control(_) => GraphicControl(b.Written())
    case _ => Other(|b.Written()|)
  }

  lemma PictureIsRead(b: GifBlock, rest: seq<byte>)
    requires b.Valid() && b.Picture?
    ensures ImageLength(b.Written() + rest) == Some(|b.Written()|)
  {
    hide SubBlocks, MapLength, WrittenColors, WrittenData, FlagsOf;
    var colors, data := WrittenColors(b.table.colors), WrittenData(b.data);
    var s, flags := b.Written() + rest, FlagsOf(b.table, b.otherFlags);
    MapIsTable(b.table, b.otherFlags);
    DataIsRead(b.data, rest);
    var front := [0x2c] + b.place + [flags] + colors + [b.codeSize];
    assert b.Written() == front + data && |front| == 11 + |colors|;
    assert s == front + (data + rest) && s[9] == flags;
    assert s[11 + |colors|..] == data + rest;
  }

  lemma ExtensionIsRead(front: seq<byte>, data: seq<seq<byte>>, rest: seq<byte>)
    requires rest != [] && forall i | 0 <= i < |data| :: 0 < |data[i]| < 256
    ensures ExtensionLength(front + WrittenData(data) + rest, |front|) == Some(|front + WrittenData(data)|)
  {
    hide Skipped, WrittenData;
    var s := front + WrittenData(data) + rest;
    DataIsRead(data, rest);
    assert s[|front|..] == WrittenData(data) + rest;
  }

  lemma BlockIsRead(b: GifBlock, rest: seq<byte>)
    requires b.Valid() && rest != []
    ensures BlockAt(b.Written() + rest) == Some(AsBlock(b)) && b.Written() != [] && b.Written()[0] != TRAILER
  {
    hide ImageLength, ExtensionLength, WrittenColors, WrittenData, FlagsOf, Table.Valid;
    var s := b.Written() + rest;
    assert s[..|b.Written()|] == b.Written();
    match b
    case Picture(_, _, _, _, _) => PictureIsRead(b, rest);
    case Control(_) =>
    case Application(identifier, data) => ExtensionIsRead([0x21, 0xff, 11] + identifier, data, rest);
    case Comment(data) => ExtensionIsRead([0x21, 0xfe], data, rest);
    case PlainText(head, data) => ExtensionIsRead([0x21, 0x01, 12] + head, data, rest);
  }

  function AsBlocks(blocks: seq<GifBlock>): (r: seq<Block>)
    requires AllValid(blocks)
    ensures |r| == |blocks| && forall i | 0 <= i < |blocks| :: r[i] == AsBlock(blocks[i])
  {
    hide AsBlock;
    seq(|blocks|, i requires 0 <= i < |blocks| => AsBlock(blocks[i]))
  }

  /** The blocks up to and including the first picture. */
  ghost function UpToPicture(blocks: seq<GifBlock>): seq<GifBlock> {
    if blocks == [] then []
    else if blocks[0].Picture? then [blocks[0]]
    else [blocks[0]] + UpToPicture(blocks[1..])
  }

  lemma {:induction false} UpToPictureIsValid(blocks: seq<GifBlock>)
    requires AllValid(blocks)
    ensures AllValid(UpToPicture(blocks))
  {
    hide GifBlock.Valid;
    if blocks != [] {
      UpToPictureIsValid(blocks[1..]);
    }
  }

  ghost function Looked(blocks: seq<GifBlock>, first: bool): (r: seq<GifBlock>)
    requires AllValid(blocks)
    ensures AllValid(r)
  {
    UpToPictureIsValid(blocks);
    if first then UpToPicture(blocks) else blocks
  }

  lemma {:induction false} BlocksAreRead(blocks: seq<GifBlock>, first: bool)
    requires AllValid(blocks)
    ensures Blocks(WrittenBlocks(blocks) + [TRAILER], first) == Some(AsBlocks(Looked(blocks, first)))
  {
    hide BlockAt, GifBlock.Valid, GifBlock.Written, AsBlock, AsBlocks, Looked;
    var s := WrittenBlocks(blocks) + [TRAILER];
    if blocks == [] {
      assert s == [TRAILER];
      NothingLooked(first);
    } else {
      var b, rest := blocks[0], WrittenBlocks(blocks[1..]) + [TRAILER];
      assert s == b.Written() + rest && s[|b.Written()|..] == rest;
      BlockIsRead(b, rest);
      BlocksAreRead(blocks[1..], first);
      AsBlocksStep(blocks, first);
      assert s[0] != TRAILER;
      OneBlockRead(s, first);
    }
  }

  lemma NothingLooked(first: bool)
    ensures Looked([], first) == [] && AsBlocks([]) == []
  {}

  lemma OneBlockRead(s: seq<byte>, first: bool)
    requires s != [] && s[0] != TRAILER && BlockAt(s).Some?
    ensures var b := BlockAt(s).value;
            Blocks(s, first) == if first && b.Image? then Some([b] + [])
                                else if Blocks(s[b.Length()..], first).None? then None
                                else Some([b] + Blocks(s[b.Length()..], first).value)
  {
    hide BlockAt;
    assert [BlockAt(s).value] + [] == [BlockAt(s).value];
  }

  lemma AsBlocksStep(blocks: seq<GifBlock>, first: bool)
    requires AllValid(blocks) && blocks != []
    ensures AsBlock(blocks[0]).Length() == |blocks[0].Written()| && (AsBlock(blocks[0]).Image? <==> blocks[0].Picture?)
    ensures AsBlocks(Looked(blocks, first))
         == [AsBlock(blocks[0])]
            + if first && blocks[0].Picture? then [] else AsBlocks(Looked(blocks[1..], first))
  {
    hide GifBlock.Valid, GifBlock.Written;
    var rest := Looked(blocks[1..], first);
    assert Looked(blocks, first) == [blocks[0]] + if first && blocks[0].Picture? then [] else rest;
  }

  // ----- What is kept ---------------------------------------------------------------

  /** The graphic control extensions among some blocks. */
  function Controls(blocks: seq<GifBlock>): seq<GifBlock> {
    if blocks == [] then []
    else if blocks[0].Control? then [blocks[0]] + Controls(blocks[1..])
    else Controls(blocks[1..])
  }

  lemma {:induction false} WantedOfSum(x: seq<Block>, y: seq<Block>)
    ensures Wanted(x + y) == Wanted(x) + Wanted(y)
  {
    if y == [] {
      assert x + y == x;
    } else {
      var n := |y| - 1;
      assert (x + y)[..|x| + n] == x + y[..n];
      WantedOfSum(x, y[..n]);
    }
  }

  lemma AsBlocksOfSum(x: seq<GifBlock>, y: seq<GifBlock>)
    requires AllValid(x) && AllValid(y)
    ensures AllValid(x + y) && AsBlocks(x + y) == AsBlocks(x) + AsBlocks(y)
  {
    hide GifBlock.Valid, AsBlock;
  }

  lemma WantedOfOne(b: GifBlock)
    requires b.Valid()
    ensures Wanted([AsBlock(b)]) == if b.Picture? || b.Control? then [AsBlock(b)] else []
  {
    hide GifBlock.Valid, GifBlock.Written;
    assert [AsBlock(b)][..0] == [];
  }

  /** Of blocks without a picture, the graphic control extensions are wanted. */
  lemma {:induction false} ControlsAreWanted(blocks: seq<GifBlock>)
    requires AllValid(blocks) && Pictureless(blocks)
    ensures AllValid(Controls(blocks)) && Wanted(AsBlocks(blocks)) == AsBlocks(Controls(blocks))
    ensures forall i | 0 <= i < |Controls(blocks)| :: Controls(blocks)[i].Control?
  {
    hide GifBlock.Valid, AsBlock, Wanted, AsBlocks;
    if blocks == [] {
      NoBlocks();
    } else {
      var b, rest := blocks[0], blocks[1..];
      ControlsAreWanted(rest);
      WantedOfOne(b);
      OneMoreBlock(b, rest);
      assert blocks == [b] + rest;
      WantedOfSum([AsBlock(b)], AsBlocks(rest));
      if b.Control? {
        OneMoreBlock(b, Controls(rest));
      }
    }
  }

  lemma OneMoreBlock(b: GifBlock, rest: seq<GifBlock>)
    requires b.Valid() && AllValid(rest)
    ensures AllValid([b] + rest) && AsBlocks([b] + rest) == [AsBlock(b)] + AsBlocks(rest)
  {
    hide GifBlock.Valid, AsBlock;
  }

  lemma {:induction false} NoControls(blocks: seq<GifBlock>)
    requires forall i | 0 <= i < |blocks| :: !blocks[i].Control?
    ensures Controls(blocks) == []
  {
    if blocks != [] {
      NoControls(blocks[1..]);
    }
  }

  lemma {:induction false} WrittenInTwo(x: seq<GifBlock>, y: seq<GifBlock>)
    requires AllValid(x) && AllValid(y)
    ensures AllValid(x + y) && WrittenBlocks(x + y) == WrittenBlocks(x) + WrittenBlocks(y)
  {
    hide GifBlock.Valid, GifBlock.Written;
    if x == [] {
      assert x + y == y;
    } else {
      assert (x + y)[1..] == x[1..] + y;
      WrittenInTwo(x[1..], y);
    }
  }

  lemma WrittenOfOne(b: GifBlock)
    requires b.Valid()
    ensures WrittenBlocks([b]) == b.Written()
  {
    hide GifBlock.Written;
    assert WrittenBlocks([b]) == b.Written() + WrittenBlocks([]);
  }

  lemma {:induction false} ControlsAreKept(front: seq<Block>, controls: seq<GifBlock>)
    requires AllValid(controls) && forall i | 0 <= i < |controls| :: controls[i].Control?
    requires front == [] || front[|front| - 1].Image?
    ensures ControlsAtEnd(front + AsBlocks(controls)) == WrittenBlocks(controls)
  {
    hide GifBlock.Valid, GifBlock.Written;
    if controls == [] {
      assert front + AsBlocks(controls) == front;
    } else {
      var n := |controls| - 1;
      var all, last := front + AsBlocks(controls), controls[n];
      assert all[|all| - 1] == AsBlock(last) && all[..|all| - 1] == front + AsBlocks(controls[..n]);
      ControlsAreKept(front, controls[..n]);
      assert controls == controls[..n] + [last];
      WrittenInTwo(controls[..n], [last]);
      WrittenOfOne(last);
    }
  }

  /** What the reader keeps of blocks that end with a picture and blocks that are not wanted. */
  lemma KeptPicture(before: seq<GifBlock>, between: seq<GifBlock>, picture: GifBlock, after: seq<GifBlock>)
    requires AllValid(before) && AllValid(between) && picture.Valid() && picture.Picture? && AllValid(after)
    requires EndsWithPicture(before)
    requires Pictureless(between)
    requires LeftOut(after)
    ensures AllValid(before + between + [picture] + after) && AllValid(Controls(between) + [picture])
    ensures LastImage(Wanted(AsBlocks(before + between + [picture] + after)))
         == Some(WrittenBlocks(Controls(between) + [picture]))
  {
    hide GifBlock.Valid, GifBlock.Written, Wanted, AsBlocks, WrittenBlocks, Controls;
    WantedParts(before, between, picture, after);
    EndsWithImage(before);
    ControlsAreWanted(between);
    WrittenInTwo(Controls(between), [picture]);
    WrittenOfOne(picture);
    ControlsAreKept(Wanted(AsBlocks(before)), Controls(between));
    LastOf(Wanted(AsBlocks(before)) + AsBlocks(Controls(between)), AsBlock(picture));
  }

  lemma LastOf(front: seq<Block>, image: Block)
    requires image.Image?
    ensures LastImage(front + [image]) == Some(ControlsAtEnd(front) + image.bytes)
  {
    hide ControlsAtEnd;
    assert (front + [image])[..|front|] == front;
  }

  lemma WantedInTwo(x: seq<GifBlock>, y: seq<GifBlock>)
    requires AllValid(x) && AllValid(y)
    ensures AllValid(x + y) && Wanted(AsBlocks(x + y)) == Wanted(AsBlocks(x)) + Wanted(AsBlocks(y))
  {
    hide GifBlock.Valid, AsBlocks, Wanted;
    AsBlocksOfSum(x, y);
    WantedOfSum(AsBlocks(x), AsBlocks(y));
  }

  lemma WantedParts(before: seq<GifBlock>, between: seq<GifBlock>, picture: GifBlock, after: seq<GifBlock>)
    requires AllValid(before) && AllValid(between) && picture.Valid() && picture.Picture? && AllValid(after)
    requires Pictureless(between)
    requires LeftOut(after)
    ensures AllValid(before + between + [picture] + after) && AllValid(Controls(between))
    ensures Wanted(AsBlocks(before + between + [picture] + after))
         == Wanted(AsBlocks(before)) + AsBlocks(Controls(between)) + [AsBlock(picture)]
  {
    hide GifBlock.Valid, Wanted, AsBlock, AsBlocks, Controls;
    WantedInTwo(before, between);
    ControlsAreWanted(between);
    WantedInTwo(before + between, [picture]);
    WantedOfOne(picture);
    OneMoreBlock(picture, []);
    NoBlocks();
    assert [picture] + [] == [picture] && [AsBlock(picture)] + [] == [AsBlock(picture)];
    WantedInTwo(before + between + [picture], after);
    ControlsAreWanted(after);
    NoControls(after);
    NothingAdded(Wanted(AsBlocks(before + between + [picture])));
  }

  lemma NothingAdded(blocks: seq<Block>)
    ensures blocks + [] == blocks
  {}

  lemma NoBlocks()
    ensures AsBlocks([]) == [] && Wanted([]) == []
  {}

  lemma EndsWithImage(before: seq<GifBlock>)
    requires AllValid(before) && EndsWithPicture(before)
    ensures var wanted := Wanted(AsBlocks(before)); wanted == [] || wanted[|wanted| - 1].Image?
  {
    hide GifBlock.Valid, GifBlock.Written;
  }

  // ----- The whole stream --------------------------------------------------------------

  lemma HeadIsRead(gif: GifStream)
    requires gif.Valid()
    ensures HeadLength(gif.Written()) == Some(|gif.Head()|)
  {
    hide MapLength, WrittenColors, WrittenBlocks, FlagsOf, GifBlock.Valid;
    MapIsTable(gif.table, gif.otherFlags);
    var b, head := gif.Written(), gif.Head();
    assert b[..13] == head[..13] && |head| == 13 + |WrittenColors(gif.table.colors)|;
    assert head[10] == FlagsOf(gif.table, gif.otherFlags);
    assert b[..6] == if gif.version == '7' then GIF87A else GIF89A;
  }

  lemma Read(gif: GifStream, first: bool)
    requires gif.Valid()
    ensures Deanimated(gif.Written(), first)
         == match LastImage(Wanted(AsBlocks(Looked(gif.blocks, first))))
            case None => None
            case Some(image) => Some(gif.Head() + image + [TRAILER])
  {
    hide HeadLength, Blocks, Wanted, LastImage, AsBlocks, Looked, WrittenBlocks, GifStream.Head, Deanimated;
    HeadIsRead(gif);
    OutputShape(gif.Written(), first);
    BlocksAreRead(gif.blocks, first);
    var b, n := gif.Written(), |gif.Head()|;
    assert b == gif.Head() + (WrittenBlocks(gif.blocks) + [TRAILER]);
    assert b[..n] == gif.Head() && b[n..] == WrittenBlocks(gif.blocks) + [TRAILER];
  }

  /** The last picture and the graphic control extensions between the picture before it and itself, with the
      head of the stream and a trailer, if no graphic control extension follows it. */
  lemma LastPictureIsKept(gif: GifStream, before: seq<GifBlock>, between: seq<GifBlock>, picture: GifBlock,
                          after: seq<GifBlock>)
    requires gif.Valid() && gif.blocks == before + between + [picture] + after && picture.Picture?
    requires EndsWithPicture(before)
    requires Pictureless(between)
    requires LeftOut(after)
    ensures var kept := gif.(blocks := Controls(between) + [picture]);
            kept.Valid() && Deanimated(gif.Written(), false) == Some(kept.Written())
  {
    hide GifBlock.Valid, Deanimated, Wanted, LastImage, AsBlocks, WrittenBlocks;
    PartsAreValid(gif.blocks, before, between, picture, after);
    Read(gif, false);
    KeptPicture(before, between, picture, after);
  }

  lemma PartsAreValid(blocks: seq<GifBlock>, before: seq<GifBlock>, between: seq<GifBlock>, picture: GifBlock,
                      after: seq<GifBlock>)
    requires AllValid(blocks) && blocks == before + between + [picture] + after
    ensures AllValid(before) && AllValid(between) && picture.Valid() && AllValid(after)
  {
    hide GifBlock.Valid;
    assert forall i | 0 <= i < |before| :: blocks[i] == before[i];
    assert forall i | 0 <= i < |between| :: blocks[|before| + i] == between[i];
    assert blocks[|before + between|] == picture;
    assert forall i | 0 <= i < |after| :: blocks[|before + between| + 1 + i] == after[i];
  }

  /** The first picture and the graphic control extensions before it, whatever follows. */
  lemma FirstPictureIsKept(gif: GifStream, between: seq<GifBlock>, picture: GifBlock, after: seq<GifBlock>)
    requires gif.Valid() && gif.blocks == between + [picture] + after && picture.Picture?
    requires Pictureless(between)
    ensures var kept := gif.(blocks := Controls(between) + [picture]);
            kept.Valid() && Deanimated(gif.Written(), true) == Some(kept.Written())
  {
    hide GifBlock.Valid, Deanimated, Wanted, LastImage, AsBlocks, WrittenBlocks, GifStream.Written, UpToPicture;
    NothingBefore(between, picture, after);
    NothingBefore(between, picture, []);
    PartsAreValid(gif.blocks, [], between, picture, after);
    Read(gif, true);
    UpToIs(between, picture, after);
    KeptPicture([], between, picture, []);
    WrittenWith(gif, Controls(between) + [picture]);
  }

  lemma NothingBefore(between: seq<GifBlock>, picture: GifBlock, after: seq<GifBlock>)
    ensures [] + between + [picture] + after == between + [picture] + after
    ensures between + [picture] + [] == between + [picture]
  {}

  lemma WrittenWith(gif: GifStream, blocks: seq<GifBlock>)
    requires gif.Valid() && AllValid(blocks)
    ensures var kept := gif.(blocks := blocks);
            kept.Valid() && kept.Written() == gif.Head() + WrittenBlocks(blocks) + [TRAILER]
  {
    hide GifBlock.Valid;
  }

  lemma {:induction false} UpToIs(between: seq<GifBlock>, picture: GifBlock, after: seq<GifBlock>)
    requires picture.Picture? && Pictureless(between)
    ensures UpToPicture(between + [picture] + after) == between + [picture]
  {
    var all := between + [picture] + after;
    if between == [] {
      assert all[0] == picture;
    } else {
      assert all[1..] == between[1..] + [picture] + after;
      UpToIs(between[1..], picture, after);
    }
  }

  ghost predicate HasPicture(blocks: seq<GifBlock>) {
    exists i | 0 <= i < |blocks| :: blocks[i].Picture?
  }

  /** A graphic control extension that no picture follows. */
  ghost predicate HasIdleControl(blocks: seq<GifBlock>) {
    exists i | 0 <= i < |blocks| :: blocks[i].Control? && forall j | i < j < |blocks| :: !blocks[j].Picture?
  }

  /** Where the last picture ends; 0 without one. */
  ghost function LastPicture(blocks: seq<GifBlock>): (n: nat)
    ensures n <= |blocks| && (n > 0 ==> blocks[n - 1].Picture?)
    ensures forall i | n <= i < |blocks| :: !blocks[i].Picture?
  {
    if blocks == [] then 0
    else if blocks[|blocks| - 1].Picture? then |blocks|
    else LastPicture(blocks[..|blocks| - 1])
  }

  ghost function FirstPicture(blocks: seq<GifBlock>): (n: nat)
    requires HasPicture(blocks)
    ensures n < |blocks| && blocks[n].Picture? && forall i | 0 <= i < n :: !blocks[i].Picture?
  {
    if blocks[0].Picture? then 0 else
      assert exists i | 0 <= i < |blocks[1..]| :: blocks[1..][i].Picture? by {
        var i :| 0 <= i < |blocks| && blocks[i].Picture?;
        assert blocks[1..][i - 1] == blocks[i];
      }
      1 + FirstPicture(blocks[1..])
  }

  lemma {:induction false} ControlsAreThere(blocks: seq<GifBlock>)
    requires exists i | 0 <= i < |blocks| :: blocks[i].Control?
    ensures Controls(blocks) != []
  {
    if !blocks[0].Control? {
      var i :| 0 <= i < |blocks| && blocks[i].Control?;
      assert blocks[1..][i - 1] == blocks[i];
      ControlsAreThere(blocks[1..]);
    }
  }

  lemma {:induction false} NoPictureUpTo(blocks: seq<GifBlock>)
    requires !HasPicture(blocks)
    ensures UpToPicture(blocks) == blocks
  {
    if blocks != [] {
      assert !blocks[0].Picture?;
      assert forall i | 0 <= i < |blocks| - 1 :: blocks[1..][i] == blocks[i + 1];
      NoPictureUpTo(blocks[1..]);
    }
  }

  /** Blocks that end without a picture leave nothing to be written if that is all, or if an extension waits. */
  lemma NoPictureAtEnd(before: seq<GifBlock>, after: seq<GifBlock>)
    requires AllValid(before) && AllValid(after) && Pictureless(after)
    requires before == [] || Controls(after) != []
    ensures AllValid(before + after) && LastImage(Wanted(AsBlocks(before + after))).None?
  {
    hide GifBlock.Valid, Wanted, AsBlocks, Controls, GifBlock.Written;
    AsBlocksOfSum(before, after);
    WantedOfSum(AsBlocks(before), AsBlocks(after));
    ControlsAreWanted(after);
    NoBlocks();
    if before == [] {
      assert before + after == after;
    }
    EndsWithControl(Wanted(AsBlocks(before)), AsBlocks(Controls(after)));
  }

  lemma EndsWithControl(front: seq<Block>, controls: seq<Block>)
    requires forall i | 0 <= i < |controls| :: controls[i].GraphicControl?
    requires front == [] || controls != []
    ensures LastImage(front + controls).None?
  {}

  lemma NoPicture(gif: GifStream, first: bool)
    requires gif.Valid() && !HasPicture(gif.blocks)
    ensures Deanimated(gif.Written(), first).None?
  {
    hide GifBlock.Valid, Deanimated, LastImage, Wanted, AsBlocks, GifStream.Written, Controls;
    NoPictureUpTo(gif.blocks);
    assert [] + gif.blocks == gif.blocks;
    NoPictureAtEnd([], gif.blocks);
    Read(gif, first);
  }

  lemma SomeFirst(gif: GifStream)
    requires gif.Valid() && HasPicture(gif.blocks)
    ensures Deanimated(gif.Written(), true).Some?
  {
    hide GifBlock.Valid, Deanimated, GifStream.Written, Controls;
    var blocks, k := gif.blocks, FirstPicture(gif.blocks);
    assert blocks == blocks[..k] + [blocks[k]] + blocks[k + 1..];
    FirstPictureIsKept(gif, blocks[..k], blocks[k], blocks[k + 1..]);
  }

  lemma IdleControlIsLast(blocks: seq<GifBlock>, n: nat)
    requires HasIdleControl(blocks) && n == LastPicture(blocks)
    ensures blocks == blocks[..n] + blocks[n..] && Controls(blocks[n..]) != []
  {
    hide Controls, LastPicture;
    var i :| 0 <= i < |blocks| && blocks[i].Control? && forall j | i < j < |blocks| :: !blocks[j].Picture?;
    assert blocks[n..][i - n] == blocks[i];
    ControlsAreThere(blocks[n..]);
  }

  lemma NoneAfterControl(gif: GifStream)
    requires gif.Valid() && HasIdleControl(gif.blocks)
    ensures Deanimated(gif.Written(), false).None?
  {
    hide GifBlock.Valid, Deanimated, LastImage, Wanted, AsBlocks, GifStream.Written, Controls;
    var blocks, n := gif.blocks, LastPicture(gif.blocks);
    IdleControlIsLast(blocks, n);
    NoPictureAtEnd(blocks[..n], blocks[n..]);
    Read(gif, false);
  }

  lemma PartsOf(blocks: seq<GifBlock>)
    returns (before: seq<GifBlock>, between: seq<GifBlock>, picture: GifBlock, after: seq<GifBlock>)
    requires HasPicture(blocks) && !HasIdleControl(blocks)
    ensures blocks == before + between + [picture] + after && picture.Picture?
    ensures EndsWithPicture(before)
    ensures Pictureless(between)
    ensures LeftOut(after)
  {
    hide LastPicture, HasPicture, HasIdleControl, LeftOut, Pictureless, EndsWithPicture;
    AfterLastPicture(blocks);
    var n := LastPicture(blocks);
    var k := LastPicture(blocks[..n - 1]);
    BetweenPictures(blocks[..n - 1]);
    CutAtPictures(blocks, k, n);
    before, between, picture, after := blocks[..k], blocks[k..n - 1], blocks[n - 1], blocks[n..];
    assert blocks[..n - 1][k..] == between && blocks[..n - 1][..k] == before;
  }

  lemma AfterLastPicture(blocks: seq<GifBlock>)
    requires HasPicture(blocks) && !HasIdleControl(blocks)
    ensures 0 < LastPicture(blocks) && LeftOut(blocks[LastPicture(blocks)..])
  {
    hide LastPicture;
    var n := LastPicture(blocks);
    assert forall i | n <= i < |blocks| :: !blocks[i].Control?;
  }

  lemma BetweenPictures(blocks: seq<GifBlock>)
    ensures EndsWithPicture(blocks[..LastPicture(blocks)]) && Pictureless(blocks[LastPicture(blocks)..])
  {
    hide LastPicture;
  }

  lemma SomeLast(gif: GifStream)
    requires gif.Valid() && HasPicture(gif.blocks) && !HasIdleControl(gif.blocks)
    ensures Deanimated(gif.Written(), false).Some?
  {
    hide GifBlock.Valid, Deanimated, GifStream.Written, Controls;
    var before, between, picture, after := PartsOf(gif.blocks);
    LastPictureIsKept(gif, before, between, picture, after);
  }

  /** There is no output exactly if there is no picture, or the last one is wanted and a graphic control
      extension without a picture comes after it. */
  lemma NothingIsKept(gif: GifStream, first: bool)
    requires gif.Valid()
    ensures Deanimated(gif.Written(), first).None? <==>
              !HasPicture(gif.blocks) || (!first && HasIdleControl(gif.blocks))
  {
    hide GifBlock.Valid, Deanimated, GifStream.Written, HasPicture, HasIdleControl;
    if !HasPicture(gif.blocks) {
      NoPicture(gif, first);
    } else if first {
      SomeFirst(gif);
    } else if HasIdleControl(gif.blocks) {
      NoneAfterControl(gif);
    } else {
      SomeLast(gif);
    }
  }

  lemma CutAtPictures(blocks: seq<GifBlock>, k: nat, n: nat)
    requires k < n <= |blocks|
    ensures blocks == blocks[..k] + blocks[k..n - 1] + [blocks[n - 1]] + blocks[n..]
  {}
}
