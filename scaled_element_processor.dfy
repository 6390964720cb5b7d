/** The completion handler of `ScaledElementProcessor.process`: it rejects
    a failed or empty recognition, and otherwise walks blocks, lines and
    elements in order, producing one scaled overlay frame per element. */
module ScaledElementProcessor {
  import opened Geometry
  import opened Recognition
  import FrameScaling

  /** An overlay for one recognized element, in the image view's space. The
      shape layer drawn from it is not modelled. */
  datatype ScaledElement = ScaledElement(frame: Rect)

  /** The guard of the completion handler: no error, a result, and a
      non-empty text. */
  predicate Accepted(c: Completion) {
    c.error.None? && c.result.Some? && c.result.value.text != ""
  }

  // ----- flattening, block by block, line by line, element by element -----

  /** The frames of a line's elements, in order. */
  function ElementFrames(es: seq<Element>): (r: seq<Rect>)
    ensures |r| == |es|
    ensures forall i :: 0 <= i < |es| ==> r[i] == es[i].frame
  {
    if es == [] then [] else ElementFrames(es[..|es| - 1]) + [es[|es| - 1].frame]
  }

  /** The frames of all elements of all lines, line after line. */
  function LineFrames(ls: seq<Line>): seq<Rect> {
    if ls == [] then [] else LineFrames(ls[..|ls| - 1]) + ElementFrames(ls[|ls| - 1].elements)
  }

  /** The frames of all elements of all blocks, block after block. */
  function BlockFrames(bs: seq<Block>): seq<Rect> {
    if bs == [] then [] else BlockFrames(bs[..|bs| - 1]) + LineFrames(bs[|bs| - 1].lines)
  }

  /** One overlay per frame, each frame mapped by `createScaledFrame`. */
  function ScaleAll(frames: seq<Rect>, imageSize: Size, viewFrame: Rect): seq<ScaledElement>
    requires Positive(imageSize) && NonNegative(SizeOf(viewFrame))
  {
    if frames == [] then []
    else
      var last := frames[|frames| - 1];
      ScaleAll(frames[..|frames| - 1], imageSize, viewFrame)
        + [ScaledElement(FrameScaling.CreateScaledFrame(last, imageSize, viewFrame))]
  }

  /** What the handler passes to its callback: `("", [])` when the guard
      fails, else the recognized text and the scaled frames of all elements
      in block, line, element order. */
  function Outcome(c: Completion, imageSize: Size, viewFrame: Rect): (string, seq<ScaledElement>)
    requires Positive(imageSize) && NonNegative(SizeOf(viewFrame))
  {
    if !Accepted(c) then ("", [])
    else (c.result.value.text, ScaleAll(BlockFrames(c.result.value.blocks), imageSize, viewFrame))
  }

  /** The completion handler of `process`, with the recognizer's outcome,
      the image size and the image view's frame as inputs and the callback's
      two arguments as outputs. */
  method Process(c: Completion, imageSize: Size, viewFrame: Rect)
    returns (text: string, scaledElements: seq<ScaledElement>)
    requires Positive(imageSize) && NonNegative(SizeOf(viewFrame))
    ensures (text, scaledElements) == Outcome(c, imageSize, viewFrame)
  {
    if !(c.error.None? && c.result.Some? && c.result.value.text != "") {
      return "", [];
    }
    var result := c.result.value;
    scaledElements := [];
    for i := 0 to |result.blocks|
      invariant scaledElements == ScaleAll(BlockFrames(result.blocks[..i]), imageSize, viewFrame)
    {
      var block := result.blocks[i];
      ghost var before := BlockFrames(result.blocks[..i]);
      assert before + LineFrames(block.lines[..0]) == before;
      for j := 0 to |block.lines|
        invariant scaledElements == ScaleAll(before + LineFrames(block.lines[..j]), imageSize, viewFrame)
      {
        var line := block.lines[j];
        ghost var upToLine := before + LineFrames(block.lines[..j]);
        assert upToLine + ElementFrames(line.elements[..0]) == upToLine;
        for k := 0 to |line.elements|
          invariant scaledElements
                    == ScaleAll(upToLine + ElementFrames(line.elements[..k]), imageSize, viewFrame)
        {
          var frame := FrameScaling.CreateScaledFrame(line.elements[k].frame, imageSize, viewFrame);
          ElementStep(upToLine, line.elements, k, imageSize, viewFrame);
          scaledElements := scaledElements + [ScaledElement(frame)];
        }
        LineStep(before, block.lines, j);
      }
      BlockStep(result.blocks, i);
    }
    assert result.blocks[..|result.blocks|] == result.blocks;
    text := result.text;
  }

  /** The innermost loop's step: one more element, one more overlay. */
  lemma ElementStep(done: seq<Rect>, es: seq<Element>, k: nat, imageSize: Size, viewFrame: Rect)
    requires Positive(imageSize) && NonNegative(SizeOf(viewFrame))
    requires k < |es|
    ensures ScaleAll(done + ElementFrames(es[..k + 1]), imageSize, viewFrame)
            == ScaleAll(done + ElementFrames(es[..k]), imageSize, viewFrame)
               + [ScaledElement(FrameScaling.CreateScaledFrame(es[k].frame, imageSize, viewFrame))]
  {
    assert es[..k + 1][..k] == es[..k];
    assert done + ElementFrames(es[..k + 1]) == done + ElementFrames(es[..k]) + [es[k].frame];
    ScaleAllSnoc(done + ElementFrames(es[..k]), es[k].frame, imageSize, viewFrame);
  }

  /** The middle loop's step: a finished line's frames follow the earlier ones. */
  lemma LineStep(done: seq<Rect>, ls: seq<Line>, j: nat)
    requires j < |ls|
    ensures done + LineFrames(ls[..j + 1])
            == done + LineFrames(ls[..j]) + ElementFrames(ls[j].elements[..|ls[j].elements|])
  {
    assert ls[..j + 1][..j] == ls[..j];
    assert ls[j].elements[..|ls[j].elements|] == ls[j].elements;
  }

  /** The outer loop's step: a finished block's frames follow the earlier ones. */
  lemma BlockStep(bs: seq<Block>, i: nat)
    requires i < |bs|
    ensures BlockFrames(bs[..i + 1]) == BlockFrames(bs[..i]) + LineFrames(bs[i].lines[..|bs[i].lines|])
  {
    assert bs[..i + 1][..i] == bs[..i];
    assert bs[i].lines[..|bs[i].lines|] == bs[i].lines;
  }

  /** Scaling one more frame appends one more overlay. */
  lemma ScaleAllSnoc(frames: seq<Rect>, f: Rect, imageSize: Size, viewFrame: Rect)
    requires Positive(imageSize) && NonNegative(SizeOf(viewFrame))
    ensures ScaleAll(frames + [f], imageSize, viewFrame)
            == ScaleAll(frames, imageSize, viewFrame)
               + [ScaledElement(FrameScaling.CreateScaledFrame(f, imageSize, viewFrame))]
  {
    assert (frames + [f])[..|frames|] == frames;
  }

  // ----- properties of the outcome -----

  /** Scaling keeps one overlay per frame, in order. */
  lemma {:induction false} ScaleAllAt(frames: seq<Rect>, imageSize: Size, viewFrame: Rect)
    requires Positive(imageSize) && NonNegative(SizeOf(viewFrame))
    ensures |ScaleAll(frames, imageSize, viewFrame)| == |frames|
    ensures forall i :: 0 <= i < |frames| ==>
              ScaleAll(frames, imageSize, viewFrame)[i].frame
              == FrameScaling.CreateScaledFrame(frames[i], imageSize, viewFrame)
  {
    if frames != [] {
      ScaleAllAt(frames[..|frames| - 1], imageSize, viewFrame);
    }
  }

  /** The error policy: the callback gets an empty text exactly when the
      recognizer failed, gave no result or gave an empty text, and then it
      gets no overlays either; otherwise it gets the recognized text
      unchanged. */
  lemma ErrorPolicy(c: Completion, imageSize: Size, viewFrame: Rect)
    requires Positive(imageSize) && NonNegative(SizeOf(viewFrame))
    ensures Outcome(c, imageSize, viewFrame).0 == "" <==> !Accepted(c)
    ensures !Accepted(c) ==> Outcome(c, imageSize, viewFrame) == ("", [])
    ensures Accepted(c) ==> Outcome(c, imageSize, viewFrame).0 == c.result.value.text
    ensures c.error.Some? || c.result.None? ==> Outcome(c, imageSize, viewFrame) == ("", [])
  {}

  // ----- counting elements, independently of the flattening -----

  /** The number of elements over all the given lines. */
  function LineElementCount(ls: seq<Line>): nat {
    if ls == [] then 0 else |ls[0].elements| + LineElementCount(ls[1..])
  }

  /** The number of elements over all lines of all the given blocks. */
  function ElementCount(bs: seq<Block>): nat {
    if bs == [] then 0 else LineElementCount(bs[0].lines) + ElementCount(bs[1..])
  }

  /** Where element `e` of line `l` of block `b` stands in block, line,
      element order: after every element of the earlier blocks and of the
      earlier lines of its own block. */
  function Position(bs: seq<Block>, b: nat, l: nat, e: nat): nat
    requires b < |bs| && l < |bs[b].lines|
  {
    ElementCount(bs[..b]) + LineElementCount(bs[b].lines[..l]) + e
  }

  /** Counting the elements of two runs of lines adds up. */
  lemma {:induction false} LineElementCountAppend(a: seq<Line>, b: seq<Line>)
    ensures LineElementCount(a + b) == LineElementCount(a) + LineElementCount(b)
  {
    if a == [] {
      assert a + b == b;
    } else {
      assert (a + b)[1..] == a[1..] + b;
      LineElementCountAppend(a[1..], b);
    }
  }

  /** Counting the elements of two runs of blocks adds up. */
  lemma {:induction false} ElementCountAppend(a: seq<Block>, b: seq<Block>)
    ensures ElementCount(a + b) == ElementCount(a) + ElementCount(b)
  {
    if a == [] {
      assert a + b == b;
    } else {
      assert (a + b)[1..] == a[1..] + b;
      ElementCountAppend(a[1..], b);
    }
  }

  /** Flattening two runs of lines concatenates their frames. */
  lemma {:induction false} LineFramesAppend(a: seq<Line>, b: seq<Line>)
    ensures LineFrames(a + b) == LineFrames(a) + LineFrames(b)
  {
    if b == [] {
      assert a + b == a;
    } else {
      var init := b[..|b| - 1];
      assert (a + b)[..|a + b| - 1] == a + init;
      LineFramesAppend(a, init);
    }
  }

  /** Flattening two runs of blocks concatenates their frames. */
  lemma {:induction false} BlockFramesAppend(a: seq<Block>, b: seq<Block>)
    ensures BlockFrames(a + b) == BlockFrames(a) + BlockFrames(b)
  {
    if b == [] {
      assert a + b == a;
    } else {
      var init := b[..|b| - 1];
      assert (a + b)[..|a + b| - 1] == a + init;
      BlockFramesAppend(a, init);
    }
  }

  /** Flattening lines keeps every element: as many frames as elements. */
  lemma {:induction false} LineFramesLength(ls: seq<Line>)
    ensures |LineFrames(ls)| == LineElementCount(ls)
  {
    if ls != [] {
      var init := ls[..|ls| - 1];
      assert ls == init + [ls[|ls| - 1]];
      LineElementCountAppend(init, [ls[|ls| - 1]]);
      LineFramesLength(init);
    }
  }

  /** Flattening keeps every element: as many frames as elements. */
  lemma {:induction false} BlockFramesLength(bs: seq<Block>)
    ensures |BlockFrames(bs)| == ElementCount(bs)
  {
    if bs != [] {
      var init := bs[..|bs| - 1];
      assert bs == init + [bs[|bs| - 1]];
      ElementCountAppend(init, [bs[|bs| - 1]]);
      LineFramesLength(bs[|bs| - 1].lines);
      BlockFramesLength(init);
    }
  }

  /** A sequence is its part before index `i`, its element at `i` and its part after. */
  lemma SplitAt<T>(s: seq<T>, i: nat)
    requires i < |s|
    ensures s == s[..i] + [s[i]] + s[i + 1..]
  {
    assert s[..i] + [s[i]] == s[..i + 1];
  }

  /** Indexing into the middle part of a concatenation. */
  lemma MiddleAt<T>(a: seq<T>, m: seq<T>, c: seq<T>, k: nat)
    requires k < |m|
    ensures |a| + k < |a + m + c| && (a + m + c)[|a| + k] == m[k]
  {}

  /** The frames of the lines around line `l`, and those of line `l`. */
  lemma LineFramesSplit(ls: seq<Line>, l: nat)
    requires l < |ls|
    ensures LineFrames(ls) == LineFrames(ls[..l]) + ElementFrames(ls[l].elements) + LineFrames(ls[l + 1..])
  {
    var head, line, tail := ls[..l], ls[l], ls[l + 1..];
    assert LineFrames([line]) == ElementFrames(line.elements) by {
      assert [line][..0] == [];
    }
    calc {
      LineFrames(ls);
      { SplitAt(ls, l); }
      LineFrames(head + [line] + tail);
      { LineFramesAppend(head + [line], tail); }
      LineFrames(head + [line]) + LineFrames(tail);
      { LineFramesAppend(head, [line]); }
      LineFrames(head) + ElementFrames(line.elements) + LineFrames(tail);
    }
  }

  /** The frames of the blocks around block `b`, and those of block `b`. */
  lemma BlockFramesSplit(bs: seq<Block>, b: nat)
    requires b < |bs|
    ensures BlockFrames(bs) == BlockFrames(bs[..b]) + LineFrames(bs[b].lines) + BlockFrames(bs[b + 1..])
  {
    var head, block, tail := bs[..b], bs[b], bs[b + 1..];
    assert BlockFrames([block]) == LineFrames(block.lines) by {
      assert [block][..0] == [];
    }
    calc {
      BlockFrames(bs);
      { SplitAt(bs, b); }
      BlockFrames(head + [block] + tail);
      { BlockFramesAppend(head + [block], tail); }
      BlockFrames(head + [block]) + BlockFrames(tail);
      { BlockFramesAppend(head, [block]); }
      BlockFrames(head) + LineFrames(block.lines) + BlockFrames(tail);
    }
  }

  /** Element `e` of line `l` sits right after the elements of the earlier lines. */
  lemma LineFramesAt(ls: seq<Line>, l: nat, e: nat)
    requires l < |ls| && e < |ls[l].elements|
    ensures LineElementCount(ls[..l]) + e < |LineFrames(ls)|
    ensures LineFrames(ls)[LineElementCount(ls[..l]) + e] == ls[l].elements[e].frame
  {
    LineFramesSplit(ls, l);
    LineFramesLength(ls[..l]);
    MiddleAt(LineFrames(ls[..l]), ElementFrames(ls[l].elements), LineFrames(ls[l + 1..]), e);
  }

  /** Element `e` of line `l` of block `b` is flattened to `Position(bs, b, l, e)`. */
  lemma BlockFramesAt(bs: seq<Block>, b: nat, l: nat, e: nat)
    requires b < |bs| && l < |bs[b].lines| && e < |bs[b].lines[l].elements|
    ensures Position(bs, b, l, e) < |BlockFrames(bs)|
    ensures BlockFrames(bs)[Position(bs, b, l, e)] == bs[b].lines[l].elements[e].frame
  {
    BlockFramesSplit(bs, b);
    BlockFramesLength(bs[..b]);
    LineFramesAt(bs[b].lines, l, e);
    var k := LineElementCount(bs[b].lines[..l]) + e;
    MiddleAt(BlockFrames(bs[..b]), LineFrames(bs[b].lines), BlockFrames(bs[b + 1..]), k);
  }

  /** Taking more lines counts at least the elements of the line added. */
  lemma LinePrefixGrows(ls: seq<Line>, l: nat, m: nat)
    requires l < m <= |ls|
    ensures LineElementCount(ls[..l]) + |ls[l].elements| <= LineElementCount(ls[..m])
  {
    assert ls[..m] == ls[..l] + [ls[l]] + ls[l + 1..m];
    LineElementCountAppend(ls[..l] + [ls[l]], ls[l + 1..m]);
    LineElementCountAppend(ls[..l], [ls[l]]);
    assert [ls[l]][1..] == [];
  }

  /** Taking more blocks counts at least the elements of the block added. */
  lemma BlockPrefixGrows(bs: seq<Block>, b: nat, m: nat)
    requires b < m <= |bs|
    ensures ElementCount(bs[..b]) + LineElementCount(bs[b].lines) <= ElementCount(bs[..m])
  {
    assert bs[..m] == bs[..b] + [bs[b]] + bs[b + 1..m];
    ElementCountAppend(bs[..b] + [bs[b]], bs[b + 1..m]);
    ElementCountAppend(bs[..b], [bs[b]]);
    assert [bs[b]][1..] == [];
  }

  /** Positions follow block, then line, then element order: an element
      that comes earlier in that order is flattened to a smaller index. */
  lemma PositionOrder(bs: seq<Block>, b: nat, l: nat, e: nat, b2: nat, l2: nat, e2: nat)
    requires b < |bs| && l < |bs[b].lines| && e < |bs[b].lines[l].elements|
    requires b2 < |bs| && l2 < |bs[b2].lines| && e2 < |bs[b2].lines[l2].elements|
    requires b < b2 || (b == b2 && l < l2) || (b == b2 && l == l2 && e < e2)
    ensures Position(bs, b, l, e) < Position(bs, b2, l2, e2)
  {
    var lines := bs[b].lines;
    if b < b2 {
      LinePrefixGrows(lines, l, |lines|);
      assert lines[..|lines|] == lines;
      BlockPrefixGrows(bs, b, b2);
    } else if l < l2 {
      LinePrefixGrows(lines, l, l2);
    }
  }

  /** The whole of `process`'s flattening: an accepted recognition yields one
      overlay per element, and the overlay at the element's position in
      block, line, element order is that element's frame mapped into the
      view. */
  lemma OverlayPerElement(c: Completion, imageSize: Size, viewFrame: Rect, b: nat, l: nat, e: nat)
    requires Positive(imageSize) && NonNegative(SizeOf(viewFrame)) && Accepted(c)
    requires var bs := c.result.value.blocks;
             b < |bs| && l < |bs[b].lines| && e < |bs[b].lines[l].elements|
    ensures var bs := c.result.value.blocks;
            var overlays := Outcome(c, imageSize, viewFrame).1;
            |overlays| == ElementCount(bs) &&
            Position(bs, b, l, e) < |overlays| &&
            overlays[Position(bs, b, l, e)].frame
            == FrameScaling.CreateScaledFrame(bs[b].lines[l].elements[e].frame, imageSize, viewFrame)
  {
    var bs := c.result.value.blocks;
    BlockFramesLength(bs);
    BlockFramesAt(bs, b, l, e);
    ScaleAllAt(BlockFrames(bs), imageSize, viewFrame);
  }
}
