/** The log of register usages, packed into chunks by the upper part of their offsets. */
module UsageLog {
  import opened Words

  const CHUNK: nat := 0x1_0000

  /** The register usage of one instruction. A missing variable stands for a real register. */
  datatype Usage = Usage(offset: nat, regVar: RegVar, rstart: nat, rend: nat, regField: nat,
                         rwFlags: nat, align: nat, useRegMode: bool)

  datatype RegVar = NoVar | Var(id: nat)

  /** A packed usage: 2 bits for the flags, 5 bits for the alignment code. */
  datatype Item = Item(regVar: RegVar, rstart: nat, rend: nat, regField: nat,
                       rwFlags: nat, align: nat, useRegMode: bool, offsetLo: nat)

  datatype Chunk = Chunk(offsetFirst: nat, items: seq<Item>)

  datatype ReadPos = ReadPos(chunkPos: nat, itemPos: nat)

  /** The number of bits of a value, which is 32 - CLZ32 for a positive 32-bit value. */
  function BitLength(a: nat): (n: nat)
    ensures a == 0 <==> n == 0
  {
    if a == 0 then 0 else BitLength(a / 2) + 1
  }

  function Pack(u: Usage): Item {
    Item(u.regVar, u.rstart, u.rend, u.regField, u.rwFlags % 4, BitLength(u.align) % 32, u.useRegMode,
         u.offset % CHUNK)
  }

  function Upper(offset: nat): nat {
    offset - offset % CHUNK
  }

  function Unpack(offsetFirst: nat, item: Item): Usage {
    Usage(Upper(offsetFirst) + item.offsetLo, item.regVar, item.rstart, item.rend, item.regField, item.rwFlags,
          if item.align != 0 then Pow2(item.align - 1) % 256 else 0, item.useRegMode)
  }

  // ----- what survives packing -----

  predicate PowerOfTwo(a: nat) {
    exists n: nat :: n < a && Pow2(n) == a
  }

  /** The fields are bytes where the usage has bytes. */
  predicate InWidth(u: Usage) {
    u.rwFlags < 256 && u.align < 256
  }

  /** Read or write flags only, and no alignment or a power of two. */
  predicate Plain(u: Usage) {
    u.rwFlags < 4 && (u.align == 0 || PowerOfTwo(u.align))
  }

  lemma {:induction false} BitLengthBounds(a: nat)
    requires a > 0
    ensures Pow2(BitLength(a) - 1) <= a < Pow2(BitLength(a))
  {
    if a > 1 {
      BitLengthBounds(a / 2);
    }
  }

  lemma {:induction false} BitLengthOfPower(n: nat)
    ensures BitLength(Pow2(n)) == n + 1 && n < Pow2(n)
  {
    if n > 0 {
      BitLengthOfPower(n - 1);
    }
  }

  lemma Pow2Of8()
    ensures Pow2(8) == 256
  {
  }

  /** The alignment read back is the greatest power of two that is not above the alignment. */
  lemma AlignmentReadBack(align: nat)
    requires 0 < align < 256
    ensures var code := BitLength(align); var r := Pow2(code - 1);
      1 <= code <= 8 && r <= align < 2 * r && r < 256
      && (r == align <==> PowerOfTwo(align))
  {
    hide BitLength;
    var code := BitLength(align);
    BitLengthBounds(align);
    Pow2Of8();
    if code > 8 {
      Pow2Grows(8, code - 1);
    }
    BitLengthOfPower(code - 1);
    if PowerOfTwo(align) {
      var n: nat :| n < align && Pow2(n) == align;
      BitLengthOfPower(n);
    }
  }

  /** What packing keeps: everything but the upper flags and the alignment, which is rounded
      down to a power of two. */
  function Kept(u: Usage): Usage {
    u.(rwFlags := u.rwFlags % 4, align := if u.align == 0 then 0 else Pow2(BitLength(u.align) - 1))
  }

  lemma UnpackPack(u: Usage, offsetFirst: nat)
    requires InWidth(u) && Upper(offsetFirst) == Upper(u.offset)
    ensures Unpack(offsetFirst, Pack(u)) == Kept(u)
  {
    hide Pow2, BitLength, PowerOfTwo;
    assert Pack(u).offsetLo == u.offset % CHUNK;
    if u.align != 0 {
      AlignmentReadBack(u.align);
      assert BitLength(u.align) % 32 == BitLength(u.align);
      assert Pow2(BitLength(u.align) - 1) % 256 == Pow2(BitLength(u.align) - 1);
    }
  }

  /** Every packed field fits its bits, and usages share a chunk exactly when the offsets agree in all but
      the low 16 bits. */
  lemma PackedFits(u: Usage, v: Usage)
    ensures Pack(u).rwFlags < 4 && Pack(u).align < 32 && Pack(u).offsetLo < 0x1_0000
    ensures Upper(u.offset) == Upper(v.offset) <==> u.offset / 0x1_0000 == v.offset / 0x1_0000
  {
  }

  /** A usage comes back unchanged exactly when its flags fit and its alignment is none or a
      power of two. */
  lemma KeptIffPlain(u: Usage)
    requires InWidth(u)
    ensures Kept(u) == u <==> Plain(u)
  {
    if u.align != 0 {
      AlignmentReadBack(u.align);
    }
  }

  /** An alignment of three comes back as two, and a third flag is lost. */
  lemma PackingLoses(regVar: RegVar)
    ensures Kept(Usage(0, regVar, 0, 1, 0, 1, 3, false)) == Usage(0, regVar, 0, 1, 0, 1, 2, false)
    ensures Kept(Usage(0, regVar, 0, 1, 0, 5, 1, false)) == Usage(0, regVar, 0, 1, 0, 1, 1, false)
  {
    assert BitLength(3) == 2 && BitLength(1) == 1;
    assert Pow2(1) == 2 && Pow2(0) == 1;
  }

  // ----- the log as a sequence -----

  function Unpacked(offsetFirst: nat, items: seq<Item>): (us: seq<Usage>)
    ensures |us| == |items|
    ensures forall i | 0 <= i < |us| :: us[i] == Unpack(offsetFirst, items[i])
  {
    seq(|items|, i requires 0 <= i < |items| => Unpack(offsetFirst, items[i]))
  }

  function Contents(chunks: seq<Chunk>): seq<Usage> {
    if chunks == [] then []
    else
      var last := chunks[|chunks| - 1];
      Contents(chunks[..|chunks| - 1]) + Unpacked(last.offsetFirst, last.items)
  }

  lemma LastContents(chunks: seq<Chunk>)
    requires chunks != []
    ensures var last := chunks[|chunks| - 1];
      Contents(chunks) == Contents(chunks[..|chunks| - 1]) + Unpacked(last.offsetFirst, last.items)
  {
  }

  lemma EmptyChunkAdds(chunks: seq<Chunk>, offset: nat)
    ensures Contents(chunks + [Chunk(offset, [])]) == Contents(chunks)
  {
    assert (chunks + [Chunk(offset, [])])[..|chunks|] == chunks;
  }

  predicate NoEmptyChunk(chunks: seq<Chunk>) {
    forall i | 0 <= i < |chunks| :: chunks[i].items != []
  }

  /** A place of a usage, or the place behind the last chunk. */
  predicate ValidPos(chunks: seq<Chunk>, pos: ReadPos) {
    || (pos.chunkPos < |chunks| && pos.itemPos < |chunks[pos.chunkPos].items|)
    || (pos.chunkPos == |chunks| && pos.itemPos == 0)
  }

  function Index(chunks: seq<Chunk>, pos: ReadPos): nat
    requires ValidPos(chunks, pos)
  {
    |Contents(chunks[..pos.chunkPos])| + pos.itemPos
  }

  lemma {:induction false} ContentsAt(chunks: seq<Chunk>, c: nat)
    requires c < |chunks|
    ensures Contents(chunks[..c]) + Unpacked(chunks[c].offsetFirst, chunks[c].items) <= Contents(chunks)
    ensures Contents(chunks[..c + 1]) == Contents(chunks[..c]) + Unpacked(chunks[c].offsetFirst, chunks[c].items)
    decreases |chunks|
  {
    var n := |chunks| - 1;
    if c < n {
      ContentsAt(chunks[..n], c);
      assert chunks[..n][..c] == chunks[..c];
      assert chunks[..n][..c + 1] == chunks[..c + 1];
    }
    assert chunks[..c + 1][..c] == chunks[..c];
    assert chunks[..n + 1] == chunks;
  }

  class Handler {
    var chunks: seq<Chunk>

    ghost predicate Valid()
      reads this
    {
      NoEmptyChunk(chunks)
    }

    constructor ()
      ensures Valid() && Contents(chunks) == []
    {
      chunks := [];
    }

    /** Adds one usage behind all others. */
    method PushUsage(rvu: Usage)
      requires Valid() && InWidth(rvu)
      modifies this
      ensures Valid()
      ensures Contents(chunks) == old(Contents(chunks)) + [Kept(rvu)]
      ensures var joins := old(chunks) != []
                           && old(chunks)[|old(chunks)| - 1].offsetFirst / 0x1_0000 == rvu.offset / 0x1_0000;
        |chunks| == |old(chunks)| + if joins then 0 else 1
    {
      hide Pow2, BitLength, Unpack, Pack, Kept, Contents, PowerOfTwo;
      ghost var before := chunks;
      if chunks != [] {
        var last := chunks[|chunks| - 1];
        if Upper(last.offsetFirst) != Upper(rvu.offset) {
          chunks := chunks + [Chunk(rvu.offset, [])];
        }
      } else {
        chunks := chunks + [Chunk(rvu.offset, [])];
      }
      var last := chunks[|chunks| - 1];
      ghost var grown := chunks;
      EmptyChunkAdds(before, rvu.offset);
      chunks := chunks[|chunks| - 1 := Chunk(last.offsetFirst, last.items + [Pack(rvu)])];
      UnpackPack(rvu, last.offsetFirst);
      assert chunks[..|chunks| - 1] == grown[..|grown| - 1];
      LastContents(grown);
      LastContents(chunks);
      assert Unpacked(last.offsetFirst, last.items + [Pack(rvu)])
             == Unpacked(last.offsetFirst, last.items) + [Kept(rvu)];
    }

    method HasNext(readPos: ReadPos) returns (r: bool)
      requires Valid() && ValidPos(chunks, readPos)
      ensures r <==> Index(chunks, readPos) < |Contents(chunks)|
    {
      r := readPos.chunkPos < |chunks|
           && (readPos.chunkPos + 1 != |chunks| || readPos.itemPos < |chunks[|chunks| - 1].items|);
      if readPos.chunkPos < |chunks| {
        ContentsAt(chunks, readPos.chunkPos);
      } else {
        assert chunks[..|chunks|] == chunks;
      }
    }

    /** Reads the usage at the position and moves the position to the next one. */
    method NextUsage(readPos: ReadPos) returns (u: Usage, readPos': ReadPos)
      requires Valid() && ValidPos(chunks, readPos) && Index(chunks, readPos) < |Contents(chunks)|
      ensures u == Contents(chunks)[Index(chunks, readPos)]
      ensures ValidPos(chunks, readPos') && Index(chunks, readPos') == Index(chunks, readPos) + 1
    {
      assert chunks[..|chunks|] == chunks;
      ContentsAt(chunks, readPos.chunkPos);
      var chunk := chunks[readPos.chunkPos];
      var item := chunk.items[readPos.itemPos];
      readPos' := readPos.(itemPos := readPos.itemPos + 1);
      if readPos'.itemPos >= |chunk.items| {
        readPos' := ReadPos(readPos'.chunkPos + 1, 0);
      }
      u := Unpack(chunk.offsetFirst, item);
    }

    /** Reads the whole log from the start. */
    method ReadAll() returns (us: seq<Usage>)
      requires Valid()
      ensures us == Contents(chunks)
    {
      us := [];
      var pos := ReadPos(0, 0);
      assert Index(chunks, pos) == 0;
      hide Contents, Index, Unpacked, ValidPos, NoEmptyChunk, Unpack;
      while true
        invariant ValidPos(chunks, pos) && Index(chunks, pos) <= |Contents(chunks)|
        invariant us == Contents(chunks)[..Index(chunks, pos)]
        decreases |Contents(chunks)| - Index(chunks, pos)
      {
        var more := HasNext(pos);
        if !more {
          return;
        }
        ghost var k := Index(chunks, pos);
        var u, next := NextUsage(pos);
        assert Contents(chunks)[..k + 1] == Contents(chunks)[..k] + [u];
        us := us + [u];
        pos := next;
      }
    }
  }

  /** MAIN: any sequence of usages that is pushed is read back, in order and across chunks. */
  method LogAndRead(us: seq<Usage>) returns (read: seq<Usage>)
    requires forall i | 0 <= i < |us| :: InWidth(us[i])
    ensures |read| == |us| && forall i | 0 <= i < |us| :: read[i] == Kept(us[i])
    ensures read == us <==> forall i | 0 <= i < |us| :: Plain(us[i])
  {
    var log := new Handler();
    for k := 0 to |us|
      invariant log.Valid() && |Contents(log.chunks)| == k
      invariant forall i | 0 <= i < k :: Contents(log.chunks)[i] == Kept(us[i])
    {
      log.PushUsage(us[k]);
    }
    read := log.ReadAll();
    forall i | 0 <= i < |us| ensures read[i] == us[i] <==> Plain(us[i]) {
      KeptIffPlain(us[i]);
    }
  }
}
