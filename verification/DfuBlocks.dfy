/**
 The block list of a download, as section 6.1 of USB DFU 1.1 has it: the image in
 stretches of the transfer size, and one empty block that ends it.
 */
module DfuBlocks {
  import opened Words
  import opened QdaPackets
  import opened DfuTransfer

  // The blocks of an image from a position on, and the empty one that ends it.
  function BlocksFrom(j: Job, bytes: nat, no: u16): (blocks: seq<Block>)
    requires j.xfer > 0 && bytes <= |j.image|
    ensures blocks != []
    decreases |j.image| - bytes
  {
    if bytes == |j.image| then [Block(no, [])]
    else [Block(no, j.image[bytes..bytes + j.Chunk(bytes)])] + BlocksFrom(j, bytes + j.Chunk(bytes), NextBlock(no))
  }

  function AllBlocks(j: Job): seq<Block>
    requires j.xfer > 0
  {
    BlocksFrom(j, 0, 0)
  }

  // The bytes of the blocks, put together.
  function Image(blocks: seq<Block>): seq<byte> {
    if blocks == [] then [] else blocks[0].data + Image(blocks[1..])
  }

  lemma {:induction false} ImageAppend(a: seq<Block>, b: seq<Block>)
    ensures Image(a + b) == Image(a) + Image(b)
    decreases |a|
  {
    if a == [] {
      assert a + b == b;
    } else {
      assert (a + b)[1..] == a[1..] + b;
      ImageAppend(a[1..], b);
    }
  }

  lemma {:induction false} ImageOfBlocks(j: Job, bytes: nat, no: u16)
    requires j.xfer > 0 && bytes <= |j.image|
    ensures Image(BlocksFrom(j, bytes, no)) == j.image[bytes..]
    decreases |j.image| - bytes
  {
    if bytes < |j.image| {
      var next := bytes + j.Chunk(bytes);
      ImageOfBlocks(j, next, NextBlock(no));
      ImageAppend([Block(no, j.image[bytes..next])], BlocksFrom(j, next, NextBlock(no)));
      assert j.image[bytes..] == j.image[bytes..next] + j.image[next..];
    }
  }

  function Min(a: nat, b: nat): nat {
    if a < b then a else b
  }

  // Block i of an image cut into stretches of xfer bytes.
  function BlockAt(j: Job, i: nat): Block {
    Block(i % 0x1_0000, j.image[Min(i * j.xfer, |j.image|)..Min(i * j.xfer + j.xfer, |j.image|)])
  }

  /**
   The block list of an image: as many blocks as it takes, each the stretch of the image at
   its place with its number modulo 65536, and one empty block after them.
   */
  lemma BlockList(j: Job)
    requires j.xfer > 0
    ensures var blocks := AllBlocks(j);
      && |blocks| == (|j.image| + j.xfer - 1) / j.xfer + 1
      && Image(blocks) == j.image && blocks[|blocks| - 1].data == []
      && forall i :: 0 <= i < |blocks| ==>
           blocks[i] == BlockAt(j, i)
  {
    hide BlockAt;
    ImageOfBlocks(j, 0, 0);
    BlocksAt(j, 0, 0, 0);
  }

  lemma {:induction false} BlocksAt(j: Job, k: nat, bytes: nat, no: u16)
    requires j.xfer > 0 && bytes == Min(k * j.xfer, |j.image|) && no as int == k % 0x1_0000
    requires k > 0 ==> (k - 1) * j.xfer < |j.image|
    ensures var blocks := BlocksFrom(j, bytes, no);
      && k + |blocks| == (|j.image| + j.xfer - 1) / j.xfer + 1
      && blocks[|blocks| - 1].data == []
      && forall i :: 0 <= i < |blocks| ==> blocks[i] == BlockAt(j, k + i)
    decreases |j.image| - bytes
  {
    hide BlockAt;
    var blocks := BlocksFrom(j, bytes, no);
    BlockHere(j, k, bytes, no);
    if bytes == |j.image| {
      LastBlock(|j.image|, j.xfer, k);
    } else {
      var next := bytes + j.Chunk(bytes);
      var later := BlocksFrom(j, next, NextBlock(no));
      BlocksAt(j, k + 1, next, NextBlock(no));
      assert blocks == [BlockAt(j, k)] + later;
      forall i | 0 <= i < |blocks| ensures blocks[i] == BlockAt(j, k + i) {
        if i > 0 {
          assert blocks[i] == later[i - 1] == BlockAt(j, k + 1 + (i - 1));
        }
      }
    }
  }

  lemma BlockHere(j: Job, k: nat, bytes: nat, no: u16)
    requires j.xfer > 0 && bytes == Min(k * j.xfer, |j.image|) && no as int == k % 0x1_0000
    ensures BlockAt(j, k) == Block(no, j.image[bytes..bytes + j.Chunk(bytes)])
    ensures (k + 1) * j.xfer == k * j.xfer + j.xfer && NextBlock(no) as int == (k + 1) % 0x1_0000
  {
  }

  lemma LastBlock(n: nat, xfer: nat, k: nat)
    requires xfer > 0 && k * xfer >= n && (k > 0 ==> (k - 1) * xfer < n)
    ensures (n + xfer - 1) / xfer == k
  {
    var q := n + xfer - 1;
    assert (k - 1) * xfer == k * xfer - xfer;
    DivideUnique(q, xfer, k, q - k * xfer);
  }
}
