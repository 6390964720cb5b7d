/** What the on-device text recognizer hands to its completion handler, as
    far as the overlay code reads it: the recognized text and its blocks,
    each block made of lines, each line made of elements with a frame in
    image-pixel coordinates. The recognizer itself is not modelled; its
    outcome is an input. */
module Recognition {
  import opened Geometry

  datatype Option<+T> = None | Some(value: T)

  /** One recognized text unit (`VisionTextElement`); only its frame is read. */
  datatype Element = Element(frame: Rect)

  /** A line of text (`VisionTextLine`). */
  datatype Line = Line(elements: seq<Element>)

  /** A block of text (`VisionTextBlock`). */
  datatype Block = Block(lines: seq<Line>)

  /** The recognizer's result (`VisionText`). */
  datatype Text = Text(text: string, blocks: seq<Block>)

  /** A failure reported by the recognizer. */
  datatype RecognitionError = RecognitionError(description: string)

  /** The two optional arguments of the completion handler, `(result, error)`. */
  datatype Completion = Completion(result: Option<Text>, error: Option<RecognitionError>)
}
