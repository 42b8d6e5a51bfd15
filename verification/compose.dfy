/** `insert_images_into_text`: interleave image references with the
    paragraphs of a text at positions drawn by `random.sample`, which is
    replaced here by the sorted draw `ps` passed in. */
module Compose {
  import opened Strings

  /** The paragraph separator: the text is split on, and rejoined with, a blank line. */
  const BlankLine: string := "\n\n"

  /** One entry of the block list built before the final join: an original
      paragraph of the text, or a reference to a stored image. Tagging the two
      kinds keeps them apart even when a paragraph reads like an image reference. */
  datatype Block = Text(text: string) | Image(name: string)

  /** The markdown image reference for a stored image file name. */
  function ImageRef(name: string): string
  {
    "![Image](images/" + name + ")"
  }

  function Render(b: Block): string
  {
    match b
    case Text(t) => t
    case Image(n) => ImageRef(n)
  }

  function RenderAll(bs: seq<Block>): (r: seq<string>)
    ensures |r| == |bs|
  {
    seq(|bs|, i requires 0 <= i < |bs| => Render(bs[i]))
  }

  /** The image references, one per name, in order. */
  function ImageRefs(names: seq<string>): (r: seq<string>)
    ensures |r| == |names|
  {
    seq(|names|, i requires 0 <= i < |names| => ImageRef(names[i]))
  }

  function ImageBlocks(names: seq<string>): (r: seq<Block>)
    ensures |r| == |names|
  {
    seq(|names|, i requires 0 <= i < |names| => Image(names[i]))
  }

  /** The original paragraphs of a block list, in order. */
  function TextsOf(bs: seq<Block>): seq<string>
  {
    if |bs| == 0 then []
    else TextsOf(bs[..|bs| - 1]) + (if bs[|bs| - 1].Text? then [bs[|bs| - 1].text] else [])
  }

  /** The image names of a block list, in order. */
  function NamesOf(bs: seq<Block>): seq<string>
  {
    if |bs| == 0 then []
    else NamesOf(bs[..|bs| - 1]) + (if bs[|bs| - 1].Image? then [bs[|bs| - 1].name] else [])
  }

  lemma {:induction false} KindsAppend(a: seq<Block>, b: seq<Block>)
    ensures TextsOf(a + b) == TextsOf(a) + TextsOf(b)
    ensures NamesOf(a + b) == NamesOf(a) + NamesOf(b)
    decreases |b|
  {
    if |b| == 0 {
      assert a + b == a;
    } else {
      assert (a + b)[..|a + b| - 1] == a + b[..|b| - 1];
      KindsAppend(a, b[..|b| - 1]);
    }
  }

  /** Every block is either a paragraph or an image. */
  lemma {:induction false} KindsCount(bs: seq<Block>)
    ensures |TextsOf(bs)| + |NamesOf(bs)| == |bs|
  {
    if |bs| > 0 {
      KindsCount(bs[..|bs| - 1]);
    }
  }

  lemma {:induction false} ImageBlocksKinds(names: seq<string>)
    ensures TextsOf(ImageBlocks(names)) == []
    ensures NamesOf(ImageBlocks(names)) == names
  {
    if |names| > 0 {
      assert ImageBlocks(names)[..|names| - 1] == ImageBlocks(names[..|names| - 1]);
      ImageBlocksKinds(names[..|names| - 1]);
      assert names == names[..|names| - 1] + [names[|names| - 1]];
    }
  }

  /** A block list with no images renders to its paragraphs. */
  lemma {:induction false} TextOnlyRender(bs: seq<Block>)
    requires NamesOf(bs) == []
    ensures RenderAll(bs) == TextsOf(bs)
  {
    if |bs| > 0 {
      var init := bs[..|bs| - 1];
      assert NamesOf(init) == [] && bs[|bs| - 1].Text?;
      TextOnlyRender(init);
      assert RenderAll(bs) == RenderAll(init) + [Render(bs[|bs| - 1])];
    }
  }

  function Min(a: int, b: int): int
  {
    if a <= b then a else b
  }

  /** How many drawn positions lie strictly before paragraph `i`. */
  function CountBelow(ps: seq<int>, i: int): (n: nat)
    ensures n <= |ps|
  {
    if |ps| == 0 then 0
    else (if ps[0] < i then 1 else 0) + CountBelow(ps[1..], i)
  }

  predicate Increasing(ps: seq<int>)
  {
    forall a, b :: 0 <= a < b < |ps| ==> ps[a] < ps[b]
  }

  /** What `sorted(random.sample(range(B), min(B-1, I)))` can return for `B`
      paragraphs and `I` images: `min(B-1, I)` distinct indices of
      `range(B)`, ascending. The slot after the last paragraph is one of them. */
  predicate ValidDraw(ps: seq<int>, blockCount: int, imageCount: int)
  {
    && |ps| == Min(blockCount - 1, imageCount)
    && (forall j :: 0 <= j < |ps| ==> 0 <= ps[j] < blockCount)
    && Increasing(ps)
  }

  lemma {:induction false} CountBelowStep(ps: seq<int>, i: int)
    requires Increasing(ps)
    ensures CountBelow(ps, i + 1) == CountBelow(ps, i) + (if i in ps then 1 else 0)
  {
    if |ps| > 0 {
      assert Increasing(ps[1..]);
      CountBelowStep(ps[1..], i);
      if ps[0] == i {
        assert i !in ps[1..];
      } else {
        assert i in ps <==> i in ps[1..];
      }
    }
  }

  lemma {:induction false} CountBelowMember(ps: seq<int>, i: int)
    requires i in ps
    ensures CountBelow(ps, i) < |ps|
  {
    if ps[0] != i {
      CountBelowMember(ps[1..], i);
    }
  }

  lemma {:induction false} CountBelowNone(ps: seq<int>, n: int)
    requires forall j :: 0 <= j < |ps| ==> ps[j] >= n
    ensures CountBelow(ps, n) == 0
  {
    if |ps| > 0 {
      CountBelowNone(ps[1..], n);
    }
  }

  lemma {:induction false} CountBelowAll(ps: seq<int>, n: int)
    requires forall j :: 0 <= j < |ps| ==> ps[j] < n
    ensures CountBelow(ps, n) == |ps|
  {
    if |ps| > 0 {
      CountBelowAll(ps[1..], n);
    }
  }

  /** Before each original paragraph there are exactly as many images as
      drawn positions lie before that paragraph's index. */
  predicate Placed(bs: seq<Block>, ps: seq<int>)
  {
    forall t :: 0 <= t < |bs| && bs[t].Text? ==>
      |NamesOf(bs[..t])| == CountBelow(ps, |TextsOf(bs[..t])|)
  }

  /** Every image directly follows an original paragraph: no image leads and
      no two images are adjacent. */
  predicate ImagesFollowText(bs: seq<Block>)
  {
    forall t :: 0 <= t < |bs| && bs[t].Image? ==> t > 0 && bs[t - 1].Text?
  }

  /** One iteration of the loop over the numbered paragraphs: append
      paragraph `i`, then the next image if `i` was drawn and images remain. */
  function Step(blocks: seq<string>, images: seq<string>, ps: seq<int>, i: nat, prev: seq<Block>, used: nat): (r: (seq<Block>, nat))
    requires i < |blocks| && used <= |images|
    ensures r.1 <= |images|
  {
    var withBlock := prev + [Text(blocks[i])];
    if i in ps && used < |images| then (withBlock + [Image(images[used])], used + 1)
    else (withBlock, used)
  }

  /** The loop after its first `n` iterations: the blocks appended so far and
      `images_used`. */
  function Walk(blocks: seq<string>, images: seq<string>, ps: seq<int>, n: nat): (r: (seq<Block>, nat))
    requires n <= |blocks|
    ensures r.1 <= |images|
  {
    if n == 0 then ([], 0)
    else
      var (prev, used) := Walk(blocks, images, ps, n - 1);
      Step(blocks, images, ps, n - 1, prev, used)
  }

  /** Whatever positions were drawn, the first `n` iterations append
      paragraphs `0..n` and images `0..images_used`, each kind in order. */
  lemma {:induction false} WalkKinds(blocks: seq<string>, images: seq<string>, ps: seq<int>, n: nat)
    requires n <= |blocks|
    ensures TextsOf(Walk(blocks, images, ps, n).0) == blocks[..n]
    ensures NamesOf(Walk(blocks, images, ps, n).0) == images[..Walk(blocks, images, ps, n).1]
  {
    if n > 0 {
      var (prev, used) := Walk(blocks, images, ps, n - 1);
      WalkKinds(blocks, images, ps, n - 1);
      StepKinds(blocks, images, ps, n - 1, prev, used);
    } else {
      assert Walk(blocks, images, ps, n).0 == [];
    }
  }

  /** One iteration adds its paragraph and, if it places one, the next image. */
  lemma StepKinds(blocks: seq<string>, images: seq<string>, ps: seq<int>, i: nat, prev: seq<Block>, used: nat)
    requires i < |blocks| && used <= |images|
    requires TextsOf(prev) == blocks[..i] && NamesOf(prev) == images[..used]
    ensures TextsOf(Step(blocks, images, ps, i, prev, used).0) == blocks[..i + 1]
    ensures NamesOf(Step(blocks, images, ps, i, prev, used).0) == images[..Step(blocks, images, ps, i, prev, used).1]
  {
    var withBlock := prev + [Text(blocks[i])];
    assert TextsOf(withBlock) == blocks[..i + 1] && NamesOf(withBlock) == images[..used] by {
      KindsAppend(prev, [Text(blocks[i])]);
      assert TextsOf([Text(blocks[i])]) == [blocks[i]];
      assert NamesOf([Text(blocks[i])]) == [];
      assert blocks[..i + 1] == blocks[..i] + [blocks[i]];
    }
    if i in ps && used < |images| {
      KindsAppend(withBlock, [Image(images[used])]);
      assert TextsOf([Image(images[used])]) == [];
      assert NamesOf([Image(images[used])]) == [images[used]];
      assert images[..used + 1] == images[..used] + [images[used]];
    }
  }

  /** The block list `new_blocks` of the multi-paragraph branch: the loop,
      then the images it did not place, in order. Whatever positions were
      drawn, it holds every paragraph and every image exactly once, each kind
      in its original order. */
  function Weave(blocks: seq<string>, images: seq<string>, ps: seq<int>): (r: seq<Block>)
    ensures TextsOf(r) == blocks
    ensures NamesOf(r) == images
    ensures |r| == |blocks| + |images|
  {
    var (woven, used) := Walk(blocks, images, ps, |blocks|);
    var rest := ImageBlocks(images[used..]);
    WalkKinds(blocks, images, ps, |blocks|);
    ImageBlocksKinds(images[used..]);
    KindsAppend(woven, rest);
    KindsCount(woven + rest);
    assert blocks[..|blocks|] == blocks;
    assert images[..used] + images[used..] == images;
    woven + rest
  }

  lemma ExtendPlaced(prev: seq<Block>, ps: seq<int>, b: string, tail: seq<Block>, bs: seq<Block>)
    requires Placed(prev, ps) && ImagesFollowText(prev)
    requires |NamesOf(prev)| == CountBelow(ps, |TextsOf(prev)|)
    requires tail == [] || (|tail| == 1 && tail[0].Image?)
    requires bs == prev + [Text(b)] + tail
    ensures Placed(bs, ps)
    ensures ImagesFollowText(bs)
  {
    forall t | 0 <= t < |bs| && bs[t].Text?
      ensures |NamesOf(bs[..t])| == CountBelow(ps, |TextsOf(bs[..t])|)
    {
      if t < |prev| {
        assert bs[..t] == prev[..t] && bs[t] == prev[t];
      } else {
        assert t == |prev| && bs[..t] == prev;
      }
    }
    forall t | 0 <= t < |bs| && bs[t].Image?
      ensures t > 0 && bs[t - 1].Text?
    {
      if t < |prev| {
        assert bs[t] == prev[t] && bs[t - 1] == prev[t - 1];
      }
    }
  }

  /** The loop invariant after `n` iterations: the first `n` paragraphs are in
      place, in order; `images_used` counts the drawn positions below `n`; the
      images placed are the first `images_used` ones, in order; each sits right
      after the paragraph whose index was drawn. */
  predicate WalkInv(blocks: seq<string>, images: seq<string>, ps: seq<int>, n: nat, bs: seq<Block>, used: nat)
  {
    && n <= |blocks|
    && used == CountBelow(ps, n)
    && used <= |images|
    && TextsOf(bs) == blocks[..n]
    && NamesOf(bs) == images[..used]
    && Placed(bs, ps)
    && ImagesFollowText(bs)
  }

  /** An iteration at a drawn index appends the paragraph and the next image. */
  lemma StepDrawn(blocks: seq<string>, images: seq<string>, ps: seq<int>, i: nat, prev: seq<Block>, used: nat)
    requires i < |blocks| && i in ps
    requires ValidDraw(ps, |blocks|, |images|)
    requires WalkInv(blocks, images, ps, i, prev, used)
    ensures used < |images|
    ensures WalkInv(blocks, images, ps, i + 1, prev + [Text(blocks[i])] + [Image(images[used])], used + 1)
  {
    CountBelowStep(ps, i);
    CountBelowMember(ps, i);
    var withBlock := prev + [Text(blocks[i])];
    KindsAppend(prev, [Text(blocks[i])]);
    KindsAppend(withBlock, [Image(images[used])]);
    assert blocks[..i + 1] == blocks[..i] + [blocks[i]];
    assert images[..used + 1] == images[..used] + [images[used]];
    ExtendPlaced(prev, ps, blocks[i], [Image(images[used])], withBlock + [Image(images[used])]);
  }

  /** An iteration at an index that was not drawn appends the paragraph only. */
  lemma StepSkipped(blocks: seq<string>, images: seq<string>, ps: seq<int>, i: nat, prev: seq<Block>, used: nat)
    requires i < |blocks| && i !in ps
    requires ValidDraw(ps, |blocks|, |images|)
    requires WalkInv(blocks, images, ps, i, prev, used)
    ensures WalkInv(blocks, images, ps, i + 1, prev + [Text(blocks[i])], used)
  {
    var withBlock := prev + [Text(blocks[i])];
    assert used == CountBelow(ps, i + 1) by {
      CountBelowStep(ps, i);
    }
    assert TextsOf(withBlock) == blocks[..i + 1] && NamesOf(withBlock) == images[..used] by {
      KindsAppend(prev, [Text(blocks[i])]);
      assert blocks[..i + 1] == blocks[..i] + [blocks[i]];
    }
    assert Placed(withBlock, ps) && ImagesFollowText(withBlock) by {
      assert withBlock == prev + [Text(blocks[i])] + [];
      ExtendPlaced(prev, ps, blocks[i], [], withBlock);
    }
  }

  /** One iteration keeps the loop invariant. */
  lemma StepKeepsInv(blocks: seq<string>, images: seq<string>, ps: seq<int>, i: nat, prev: seq<Block>, used: nat)
    requires i < |blocks|
    requires ValidDraw(ps, |blocks|, |images|)
    requires WalkInv(blocks, images, ps, i, prev, used)
    ensures WalkInv(blocks, images, ps, i + 1, Step(blocks, images, ps, i, prev, used).0, Step(blocks, images, ps, i, prev, used).1)
  {
    if i in ps {
      StepDrawn(blocks, images, ps, i, prev, used);
    } else {
      StepSkipped(blocks, images, ps, i, prev, used);
    }
  }

  lemma {:induction false} WalkSpec(blocks: seq<string>, images: seq<string>, ps: seq<int>, n: nat)
    requires n <= |blocks|
    requires ValidDraw(ps, |blocks|, |images|)
    ensures WalkInv(blocks, images, ps, n, Walk(blocks, images, ps, n).0, Walk(blocks, images, ps, n).1)
  {
    if n == 0 {
      CountBelowNone(ps, 0);
    } else {
      WalkSpec(blocks, images, ps, n - 1);
      var (prev, used) := Walk(blocks, images, ps, n - 1);
      StepKeepsInv(blocks, images, ps, n - 1, prev, used);
    }
  }

  /** The finished loop has placed one image per drawn position, and the
      leftover images follow it. */
  lemma WeaveShape(blocks: seq<string>, images: seq<string>, ps: seq<int>)
    requires ValidDraw(ps, |blocks|, |images|)
    ensures Walk(blocks, images, ps, |blocks|).1 == |ps|
    ensures WalkInv(blocks, images, ps, |blocks|, Walk(blocks, images, ps, |blocks|).0, |ps|)
    ensures |Walk(blocks, images, ps, |blocks|).0| == |blocks| + |ps|
    ensures Weave(blocks, images, ps) == Walk(blocks, images, ps, |blocks|).0 + ImageBlocks(images[|ps|..])
  {
    WalkSpec(blocks, images, ps, |blocks|);
    CountBelowAll(ps, |blocks|);
    var woven := Walk(blocks, images, ps, |blocks|).0;
    KindsCount(woven);
    assert blocks[..|blocks|] == blocks;
  }

  lemma WeavePlaced(blocks: seq<string>, images: seq<string>, ps: seq<int>)
    requires ValidDraw(ps, |blocks|, |images|)
    ensures Placed(Weave(blocks, images, ps), ps)
  {
    WeaveShape(blocks, images, ps);
    var woven := Walk(blocks, images, ps, |blocks|).0;
    var r := Weave(blocks, images, ps);
    forall t | 0 <= t < |r| && r[t].Text?
      ensures |NamesOf(r[..t])| == CountBelow(ps, |TextsOf(r[..t])|)
    {
      assert t < |woven|;
      assert r[..t] == woven[..t] && r[t] == woven[t];
    }
  }

  /** For a valid draw the block list holds every paragraph and every image
      exactly once, each kind in its original order, so it has `B + I`
      entries; the images before each paragraph are exactly those of the drawn
      positions below it; up to the last drawn image every image directly
      follows a paragraph; and the undrawn images `images[k..]` end the list. */
  lemma WeaveSpec(blocks: seq<string>, images: seq<string>, ps: seq<int>)
    requires ValidDraw(ps, |blocks|, |images|)
    ensures TextsOf(Weave(blocks, images, ps)) == blocks
    ensures NamesOf(Weave(blocks, images, ps)) == images
    ensures |Weave(blocks, images, ps)| == |blocks| + |images|
    ensures Placed(Weave(blocks, images, ps), ps)
    ensures ImagesFollowText(Weave(blocks, images, ps)[..|blocks| + |ps|])
    ensures Weave(blocks, images, ps)[|blocks| + |ps|..] == ImageBlocks(images[|ps|..])
  {
    WeaveShape(blocks, images, ps);
    WeavePlaced(blocks, images, ps);
    KindsCount(Weave(blocks, images, ps));
    var woven := Walk(blocks, images, ps, |blocks|).0;
    assert Weave(blocks, images, ps)[..|blocks| + |ps|] == woven;
  }

  /** The draw actually consulted: only the multi-paragraph branch with at
      least one image draws positions. */
  function EffectiveDraw(content: string, images: seq<string>, ps: seq<int>): seq<int>
  {
    if |images| == 0 || |Split(content, BlankLine)| <= 1 then [] else ps
  }

  /** `ps` is a draw `random.sample` could have made for this text and these images. */
  predicate DrawFits(content: string, images: seq<string>, ps: seq<int>)
  {
    var b := |Split(content, BlankLine)|;
    |images| == 0 || b <= 1 || ValidDraw(ps, b, |images|)
  }

  /** `insert_images_into_text(content, image_paths)` with the draw `ps`. No
      images leave the text untouched; a text without a blank line gets all
      image references appended after a blank line, in order. */
  function InsertImages(content: string, images: seq<string>, ps: seq<int>): (r: string)
    ensures |images| == 0 ==> r == content
    ensures |images| > 0 && !Contains(content, BlankLine) ==>
      r == content + BlankLine + Join(ImageRefs(images), BlankLine)
  {
    SplitSingle(content, BlankLine);
    if |images| == 0 then content
    else
      var blocks := Split(content, BlankLine);
      if |blocks| <= 1 then content + BlankLine + Join(ImageRefs(images), BlankLine)
      else Join(RenderAll(Weave(blocks, images, ps)), BlankLine)
  }

  /** All three branches of `insert_images_into_text` join one block list:
      the woven list of the paragraphs of `content`, with the empty draw in
      the branches that draw nothing. */
  lemma InsertImagesJoinsWeave(content: string, images: seq<string>, ps: seq<int>)
    requires DrawFits(content, images, ps)
    ensures ValidDraw(EffectiveDraw(content, images, ps), |Split(content, BlankLine)|, |images|)
    ensures InsertImages(content, images, ps)
         == Join(RenderAll(Weave(Split(content, BlankLine), images, EffectiveDraw(content, images, ps))), BlankLine)
  {
    var blocks := Split(content, BlankLine);
    var d := EffectiveDraw(content, images, ps);
    if |images| == 0 {
      assert d == [];
      TextOnlyRender(Weave(blocks, images, d));
      JoinSplit(content, BlankLine);
    } else if |blocks| <= 1 {
      SplitSingle(content, BlankLine);
      assert blocks == [content] && d == [];
      SingleParagraphWeave(content, images);
    }
  }

  /** A single paragraph is followed by all the images, in order. */
  lemma SingleParagraphWeave(content: string, images: seq<string>)
    requires |images| > 0
    ensures Join(RenderAll(Weave([content], images, [])), BlankLine)
         == content + BlankLine + Join(ImageRefs(images), BlankLine)
  {
    var blocks := [content];
    assert Walk(blocks, images, [], 0) == ([], 0);
    var none: seq<int> := [];
    assert 0 !in none;
    assert [] + [Text(blocks[0])] == [Text(content)];
    assert Step(blocks, images, [], 0, [], 0) == ([Text(content)], 0);
    assert Walk(blocks, images, [], 1) == ([Text(content)], 0);
    assert images[0..] == images;
    var w := Weave(blocks, images, []);
    assert w == [Text(content)] + ImageBlocks(images);
    assert RenderAll(w) == [content] + ImageRefs(images);
    assert ([content] + ImageRefs(images))[1..] == ImageRefs(images);
  }

  /** The block list `new_blocks` that `insert_images_into_text` joins, for
      every branch: the woven paragraphs of `content` under the draw actually
      consulted. */
  function Layout(content: string, images: seq<string>, ps: seq<int>): seq<Block>
  {
    Weave(Split(content, BlankLine), images, EffectiveDraw(content, images, ps))
  }

  /** The returned text is the block list joined by blank lines. */
  lemma LayoutJoins(content: string, images: seq<string>, ps: seq<int>)
    requires DrawFits(content, images, ps)
    ensures Join(RenderAll(Layout(content, images, ps)), BlankLine) == InsertImages(content, images, ps)
  {
    InsertImagesJoinsWeave(content, images, ps);
  }

  /** In every branch the block list holds the paragraphs of `content` in
      order and the images in order, `B + I` blocks in all, and before each
      paragraph stand exactly the images of the drawn positions below it (none,
      in the branches that draw nothing). */
  lemma LayoutSpec(content: string, images: seq<string>, ps: seq<int>)
    requires DrawFits(content, images, ps)
    ensures TextsOf(Layout(content, images, ps)) == Split(content, BlankLine)
    ensures NamesOf(Layout(content, images, ps)) == images
    ensures |Layout(content, images, ps)| == |Split(content, BlankLine)| + |images|
    ensures Placed(Layout(content, images, ps), EffectiveDraw(content, images, ps))
  {
    var blocks := Split(content, BlankLine);
    var d := EffectiveDraw(content, images, ps);
    assert ValidDraw(d, |blocks|, |images|) by {
      InsertImagesJoinsWeave(content, images, ps);
    }
    var r := Weave(blocks, images, d);
    assert Layout(content, images, ps) == r;
    WeaveSpec(blocks, images, d);
  }
}
