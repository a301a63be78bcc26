/** The parsed pandoc document and the handles the filter uses to rewrite
    image targets (src/pandoc.rs).

    A document is a sequence of blocks; each block is the sequence of inline
    elements that pandoc's block/inline traversal visits in it. A handle
    names one inline element by its block index and its index within that
    block, so writing through a handle is an update of the document at that
    position and nothing else. */
module Pandoc {
  import opened Common

  datatype Attr = Attr(identifier: string, classes: seq<string>, attributes: seq<(string, string)>)

  /** Where a link or image points, and its title. */
  datatype Target = Target(url: string, title: string)

  datatype Inline =
    | Str(text: string)
    | Space
    | Code(attr: Attr, text: string)
    | Link(attr: Attr, content: seq<Inline>, target: Target)
    | Image(attr: Attr, alt: seq<Inline>, target: Target)

  datatype Block = Block(inlines: seq<Inline>)

  datatype Handle = Handle(block: nat, inline: nat)

  predicate IsImageAt(blocks: seq<Block>, h: Handle)
  {
    h.block < |blocks| && h.inline < |blocks[h.block].inlines| && blocks[h.block].inlines[h.inline].Image?
  }

  /** Document order: by block, then by inline within the block. */
  predicate Before(g: Handle, h: Handle)
  {
    g.block < h.block || (g.block == h.block && g.inline < h.inline)
  }

  predicate Increasing(hs: seq<Handle>)
  {
    forall j, k :: 0 <= j < k < |hs| ==> Before(hs[j], hs[k])
  }

  /** No handle occurs twice. */
  predicate Distinct(hs: seq<Handle>)
  {
    forall j, k :: 0 <= j < k < |hs| ==> hs[j] != hs[k]
  }

  lemma IncreasingIsDistinct(hs: seq<Handle>)
    requires Increasing(hs)
    ensures Distinct(hs)
  {
    forall j, k | 0 <= j < k < |hs| ensures hs[j] != hs[k] {
      assert Before(hs[j], hs[k]);
    }
  }

  /** The tail of a sequence without repetitions has none either and does
      not hold its head. */
  lemma DistinctTail(hs: seq<Handle>)
    requires hs != [] && Distinct(hs)
    ensures Distinct(hs[1..])
    ensures hs[0] !in hs[1..]
  {
    forall m | 0 <= m < |hs[1..]| ensures hs[1..][m] != hs[0] {
      assert hs[1..][m] == hs[m + 1];
    }
  }

  /** The tail of an increasing sequence is increasing and comes after its head. */
  lemma IncreasingTail(hs: seq<Handle>)
    requires hs != [] && Increasing(hs)
    ensures Increasing(hs[1..])
    ensures forall g :: g in hs[1..] ==> Before(hs[0], g)
  {
    forall g | g in hs[1..] ensures Before(hs[0], g) {
      var m :| 0 <= m < |hs[1..]| && hs[1..][m] == g;
      assert hs[m + 1] == g;
    }
  }

  /** A handle before every handle of an increasing sequence extends it. */
  lemma IncreasingCons(h: Handle, hs: seq<Handle>)
    requires Increasing(hs)
    requires forall g :: g in hs ==> Before(h, g)
    ensures Increasing([h] + hs)
  {
    var r := [h] + hs;
    forall j, k | 0 <= j < k < |r| ensures Before(r[j], r[k]) {
      assert r[k] == hs[k - 1];
      if j > 0 {
        assert r[j] == hs[j - 1];
      }
    }
  }

  /** Two documents with the same blocks and inlines, and images at the same
      positions. */
  ghost predicate SameShape(blocks: seq<Block>, blocks': seq<Block>)
  {
    && |blocks'| == |blocks|
    && (forall b :: 0 <= b < |blocks| ==> |blocks'[b].inlines| == |blocks[b].inlines|)
    && (forall h :: IsImageAt(blocks', h) <==> IsImageAt(blocks, h))
  }

  lemma SameShapeTransitive(blocks: seq<Block>, blocks': seq<Block>, blocks'': seq<Block>)
    requires SameShape(blocks, blocks') && SameShape(blocks', blocks'')
    ensures SameShape(blocks, blocks'')
  {
  }

  /** The handles of the images among the inlines of block `b` from index `i` on. */
  function InlineImages(blocks: seq<Block>, b: nat, i: nat): (r: seq<Handle>)
    requires b < |blocks| && i <= |blocks[b].inlines|
    ensures forall h :: h in r <==> IsImageAt(blocks, h) && h.block == b && h.inline >= i
    ensures Increasing(r)
    decreases |blocks[b].inlines| - i
  {
    if i == |blocks[b].inlines| then []
    else
      var rest := InlineImages(blocks, b, i + 1);
      if blocks[b].inlines[i].Image? then [Handle(b, i)] + rest else rest
  }

  /** The handles of the images in the blocks from index `b` on. */
  function BlockImages(blocks: seq<Block>, b: nat): (r: seq<Handle>)
    requires b <= |blocks|
    ensures forall h :: h in r <==> IsImageAt(blocks, h) && h.block >= b
    ensures Increasing(r)
    decreases |blocks| - b
  {
    if b == |blocks| then []
    else
      var here := InlineImages(blocks, b, 0);
      var rest := BlockImages(blocks, b + 1);
      assert forall j, k :: 0 <= j < |here| && 0 <= k < |rest| ==> Before(here[j], rest[k]) by {
        forall j, k | 0 <= j < |here| && 0 <= k < |rest| ensures Before(here[j], rest[k]) {
          assert here[j] in here && rest[k] in rest;
        }
      }
      here + rest
  }

  /** `get_all_images`: one handle per image of the document, and a handle
      for nothing else, in document order. */
  function GetAllImages(blocks: seq<Block>): (r: seq<Handle>)
    ensures forall h :: h in r <==> IsImageAt(blocks, h)
    ensures Increasing(r)
  {
    BlockImages(blocks, 0)
  }

  /** `image_url_read_only`: the url of the image a handle names. */
  function ImageUrl(blocks: seq<Block>, h: Handle): string
    requires IsImageAt(blocks, h)
  {
    blocks[h.block].inlines[h.inline].target.url
  }

  /** The image with its target's url replaced. */
  function WithUrl(image: Inline, url: string): Inline
    requires image.Image?
  {
    Image(image.attr, image.alt, Target(url, image.target.title))
  }

  /** A write of `url` through the handle `h`. */
  function WithImageUrl(blocks: seq<Block>, h: Handle, url: string): (r: seq<Block>)
    requires IsImageAt(blocks, h)
    ensures SameShape(blocks, r)
    ensures ImageUrl(r, h) == url
    ensures var before := blocks[h.block].inlines[h.inline];
            var after := r[h.block].inlines[h.inline];
            after.attr == before.attr && after.alt == before.alt && after.target.title == before.target.title
    ensures forall b, i :: 0 <= b < |blocks| && 0 <= i < |blocks[b].inlines| && Handle(b, i) != h ==>
              r[b].inlines[i] == blocks[b].inlines[i]
  {
    var inls := blocks[h.block].inlines;
    blocks[h.block := Block(inls[h.inline := WithUrl(inls[h.inline], url)])]
  }

  /** Handles are disjoint: writing through one leaves the url seen through
      every other unchanged. */
  lemma WriteIsDisjoint(blocks: seq<Block>, h: Handle, g: Handle, url: string)
    requires IsImageAt(blocks, h) && IsImageAt(blocks, g) && g != h
    ensures IsImageAt(WithImageUrl(blocks, h, url), g)
    ensures ImageUrl(WithImageUrl(blocks, h, url), g) == ImageUrl(blocks, g)
  {
  }

  lemma {:induction false} InlineImagesOfSameShape(blocks: seq<Block>, blocks': seq<Block>, b: nat, i: nat)
    requires SameShape(blocks, blocks')
    requires b < |blocks| && i <= |blocks[b].inlines|
    ensures InlineImages(blocks', b, i) == InlineImages(blocks, b, i)
    decreases |blocks[b].inlines| - i
  {
    if i < |blocks[b].inlines| {
      InlineImagesOfSameShape(blocks, blocks', b, i + 1);
      assert IsImageAt(blocks, Handle(b, i)) == IsImageAt(blocks', Handle(b, i));
    }
  }

  lemma {:induction false} BlockImagesOfSameShape(blocks: seq<Block>, blocks': seq<Block>, b: nat)
    requires SameShape(blocks, blocks')
    requires b <= |blocks|
    ensures BlockImages(blocks', b) == BlockImages(blocks, b)
    decreases |blocks| - b
  {
    if b < |blocks| {
      InlineImagesOfSameShape(blocks, blocks', b, 0);
      BlockImagesOfSameShape(blocks, blocks', b + 1);
      BlockImagesUnfold(blocks, b);
      BlockImagesUnfold(blocks', b);
    }
  }

  lemma BlockImagesUnfold(blocks: seq<Block>, b: nat)
    requires b < |blocks|
    ensures BlockImages(blocks, b) == InlineImages(blocks, b, 0) + BlockImages(blocks, b + 1)
  {
  }

  /** Writing urls never changes which handles `get_all_images` yields, so
      handles taken before a write stay valid after it. */
  lemma {:induction false} GetAllImagesAfterWrite(blocks: seq<Block>, h: Handle, url: string)
    requires IsImageAt(blocks, h)
    ensures GetAllImages(WithImageUrl(blocks, h, url)) == GetAllImages(blocks)
  {
    BlockImagesOfSameShape(blocks, WithImageUrl(blocks, h, url), 0);
  }

  /** The image with its url replaced by `rename` applied to it. */
  function RenameImage(inline: Inline, rename: string -> string): Inline
  {
    if inline.Image? then WithUrl(inline, rename(inline.target.url)) else inline
  }

  /** The document with the url of every image at a position in `S` renamed. */
  function RewriteAt(blocks: seq<Block>, S: set<Handle>, rename: string -> string): (r: seq<Block>)
    ensures SameShape(blocks, r)
    ensures forall b, i :: 0 <= b < |blocks| && 0 <= i < |blocks[b].inlines| ==>
              r[b].inlines[i] == if Handle(b, i) in S then RenameImage(blocks[b].inlines[i], rename) else blocks[b].inlines[i]
  {
    seq(|blocks|, b requires 0 <= b < |blocks| =>
      Block(seq(|blocks[b].inlines|, i requires 0 <= i < |blocks[b].inlines| =>
        if Handle(b, i) in S then RenameImage(blocks[b].inlines[i], rename) else blocks[b].inlines[i])))
  }

  /** Two documents are equal when they agree at every position. */
  lemma SameInlines(blocks: seq<Block>, blocks': seq<Block>)
    requires |blocks'| == |blocks|
    requires forall b :: 0 <= b < |blocks| ==> |blocks'[b].inlines| == |blocks[b].inlines|
    requires forall b, i :: 0 <= b < |blocks| && 0 <= i < |blocks[b].inlines| ==> blocks'[b].inlines[i] == blocks[b].inlines[i]
    ensures blocks' == blocks
  {
    forall b | 0 <= b < |blocks| ensures blocks'[b] == blocks[b] {
      assert blocks'[b].inlines == blocks[b].inlines;
    }
  }

  /** Renaming nowhere leaves the document as it is. */
  lemma RewriteNowhere(blocks: seq<Block>, rename: string -> string)
    ensures RewriteAt(blocks, {}, rename) == blocks
  {
    SameInlines(blocks, RewriteAt(blocks, {}, rename));
  }

  /** Renaming the images in `S` and then writing the renamed url through a
      further handle `h` renames the images in `S + {h}`. */
  lemma RewriteOneMore(blocks: seq<Block>, S: set<Handle>, h: Handle, rename: string -> string)
    requires IsImageAt(blocks, h) && h !in S
    ensures IsImageAt(RewriteAt(blocks, S, rename), h)
    ensures ImageUrl(RewriteAt(blocks, S, rename), h) == ImageUrl(blocks, h)
    ensures WithImageUrl(RewriteAt(blocks, S, rename), h, rename(ImageUrl(blocks, h))) == RewriteAt(blocks, S + {h}, rename)
  {
    var before := RewriteAt(blocks, S, rename);
    assert before[h.block].inlines[h.inline] == blocks[h.block].inlines[h.inline];
    SameInlines(RewriteAt(blocks, S + {h}, rename), WithImageUrl(before, h, rename(ImageUrl(blocks, h))));
  }

  /** The document as the filter holds it: blocks whose image urls are
      rewritten in place. */
  class PandocDocument {
    var blocks: seq<Block>

    constructor (blocks: seq<Block>)
      ensures this.blocks == blocks
    {
      this.blocks := blocks;
    }

    /** `*image.image_url() = url`. */
    method SetImageUrl(h: Handle, url: string)
      requires IsImageAt(blocks, h)
      modifies this
      ensures blocks == WithImageUrl(old(blocks), h, url)
    {
      var inls := blocks[h.block].inlines;
      blocks := blocks[h.block := Block(inls[h.inline := WithUrl(inls[h.inline], url)])];
    }
  }
}
