// How the server's bot route cuts a long reply into messages under
// Telegram's size limit: the text is split at blank lines into blocks, and
// consecutive blocks are packed into one chunk while the chunk stays within
// the limit (counted in UTF-16 code units, as `String.length` counts).

module ChunkText {
  import opened Strings

  /** The default limit, a little under Telegram's 4096. */
  const DefaultLimit: int := 4000

  /** The blank line the text is split at and the blocks are packed around. */
  const BlankLine: string := "\n\n"

  /** The loop's two variables: the chunks pushed so far and the chunk being packed. */
  datatype Packing = Packing(parts: seq<string>, current: string)

  /** One step of the loop: add `block` to the current chunk, or close it and start a new one with `block`. */
  function Step(p: Packing, block: string, limit: int): Packing
  {
    var plus := (if p.current != "" then p.current + BlankLine else "") + block;
    if Utf16Len(plus) > limit then
      Packing(if p.current != "" then p.parts + [p.current] else p.parts, block)
    else Packing(p.parts, plus)
  }

  /** The state after the loop has seen `blocks`. */
  function Pack(blocks: seq<string>, limit: int): Packing
  {
    if |blocks| == 0 then Packing([], "")
    else Step(Pack(blocks[..|blocks| - 1], limit), blocks[|blocks| - 1], limit)
  }

  /** The chunks of `text`: the text itself when it fits, the packed blocks otherwise. */
  function Chunks(text: string, limit: int): seq<string>
  {
    if Utf16Len(text) <= limit then [text]
    else
      var p := Pack(Split(text, BlankLine), limit);
      if p.current != "" then p.parts + [p.current] else p.parts
  }

  /** `chunkText(text, limit)`. */
  method ChunkText(text: string, limit: int) returns (parts: seq<string>)
    ensures parts == Chunks(text, limit)
    ensures Utf16Len(text) <= limit ==> parts == [text]
  {
    if Utf16Len(text) <= limit {
      return [text];
    }
    parts := [];
    var blocks := Split(text, BlankLine);
    var current := "";
    var i := 0;
    while i < |blocks|
      invariant i <= |blocks|
      invariant Packing(parts, current) == Pack(blocks[..i], limit)
    {
      var block := blocks[i];
      assert blocks[..i + 1][..i] == blocks[..i];
      var plus := (if current != "" then current + BlankLine else "") + block;
      if Utf16Len(plus) > limit {
        if current != "" {
          parts := parts + [current];
        }
        current := block;
      } else {
        current := plus;
      }
      i := i + 1;
    }
    assert blocks[..|blocks|] == blocks;
    if current != "" {
      parts := parts + [current];
    }
  }

  // ---------------------------------------------------------- properties

  /**
   * What the loop keeps true: no empty chunk has been pushed, and every
   * chunk, pushed or being packed, is within the limit or is one block.
   */
  predicate Fits(c: string, blocks: seq<string>, limit: int)
  {
    Utf16Len(c) <= limit || c in blocks
  }

  lemma {:induction false} PackBounds(blocks: seq<string>, limit: int)
    ensures forall k :: 0 <= k < |Pack(blocks, limit).parts| ==> Pack(blocks, limit).parts[k] != ""
    ensures forall k :: 0 <= k < |Pack(blocks, limit).parts| ==> Fits(Pack(blocks, limit).parts[k], blocks, limit)
    ensures Pack(blocks, limit).current == "" || Fits(Pack(blocks, limit).current, blocks, limit)
    decreases |blocks|
  {
    if |blocks| > 0 {
      var pre := blocks[..|blocks| - 1];
      var b := blocks[|blocks| - 1];
      PackBounds(pre, limit);
      var p := Pack(pre, limit);
      assert b in blocks;
      assert forall c :: c in pre ==> c in blocks;
      StepBounds(p, b, limit, pre, blocks);
    }
  }

  lemma {:induction false} StepBounds(p: Packing, b: string, limit: int, pre: seq<string>, blocks: seq<string>)
    requires forall k :: 0 <= k < |p.parts| ==> p.parts[k] != "" && Fits(p.parts[k], pre, limit)
    requires p.current == "" || Fits(p.current, pre, limit)
    requires b in blocks && forall c :: c in pre ==> c in blocks
    ensures forall k :: 0 <= k < |Step(p, b, limit).parts| ==>
      Step(p, b, limit).parts[k] != "" && Fits(Step(p, b, limit).parts[k], blocks, limit)
    ensures Step(p, b, limit).current == "" || Fits(Step(p, b, limit).current, blocks, limit)
  {
    var q := Step(p, b, limit);
    assert forall k :: 0 <= k < |p.parts| ==> Fits(p.parts[k], blocks, limit);
    if q.parts != p.parts {
      assert q.parts == p.parts + [p.current];
    }
  }

  /**
   * A long text is sent as chunks none of which is empty, each within the
   * limit unless it is a single block too long for any chunk.
   */
  lemma {:induction false} ChunkBounds(text: string, limit: int)
    requires Utf16Len(text) > limit
    ensures forall k :: 0 <= k < |Chunks(text, limit)| ==> Chunks(text, limit)[k] != ""
    ensures forall k :: 0 <= k < |Chunks(text, limit)| ==>
      Utf16Len(Chunks(text, limit)[k]) <= limit || Chunks(text, limit)[k] in Split(text, BlankLine)
  {
    var blocks := Split(text, BlankLine);
    PackBounds(blocks, limit);
  }

  /**
   * While no block is empty, the pushed chunks and the current one, joined by
   * blank lines, are the blocks seen so far joined by blank lines.
   */
  lemma {:induction false} PackRejoins(blocks: seq<string>, limit: int)
    requires |blocks| > 0 && forall k :: 0 <= k < |blocks| ==> blocks[k] != ""
    ensures Pack(blocks, limit).current != ""
    ensures Join(Pack(blocks, limit).parts + [Pack(blocks, limit).current], BlankLine) == Join(blocks, BlankLine)
    decreases |blocks|
  {
    var pre := blocks[..|blocks| - 1];
    var b := blocks[|blocks| - 1];
    if |pre| == 0 {
      assert blocks == [b];
    } else {
      PackRejoins(pre, limit);
      var p := Pack(pre, limit);
      StepRejoins(p.parts, p.current, b, limit);
      assert blocks == pre + [b];
      JoinAppend(pre, [b], BlankLine);
    }
  }

  /** One step with a nonempty current chunk appends the block behind a blank line. */
  lemma {:induction false} StepRejoins(parts: seq<string>, current: string, b: string, limit: int)
    requires current != "" && b != ""
    ensures Step(Packing(parts, current), b, limit).current != ""
    ensures Join(Step(Packing(parts, current), b, limit).parts + [Step(Packing(parts, current), b, limit).current], BlankLine)
      == Join(parts + [current], BlankLine) + BlankLine + b
  {
    var q := Step(Packing(parts, current), b, limit);
    if q.parts == parts + [current] {
      assert q.parts + [q.current] == (parts + [current]) + [b];
      JoinAppend(parts + [current], [b], BlankLine);
    } else {
      assert q.current == current + BlankLine + b;
      ConcatAssoc(current, BlankLine, b);
      JoinLast(parts, current, BlankLine + b);
      ConcatAssoc(Join(parts + [current], BlankLine), BlankLine, b);
    }
  }

  /** Extending the last of the joined pieces extends the joined text. */
  lemma {:induction false} JoinLast(parts: seq<string>, c: string, tail: string)
    ensures Join(parts + [c + tail], BlankLine) == Join(parts + [c], BlankLine) + tail
    decreases |parts|
  {
    if |parts| == 0 {
      assert [] + [c + tail] == [c + tail];
      assert [] + [c] == [c];
    } else {
      assert (parts + [c + tail])[1..] == parts[1..] + [c + tail];
      assert (parts + [c])[1..] == parts[1..] + [c];
      JoinLast(parts[1..], c, tail);
      ConcatAssoc(parts[0] + BlankLine, Join(parts[1..] + [c], BlankLine), tail);
    }
  }

  /**
   * When the text is long and has no empty block (it neither starts nor ends
   * with a blank line and never holds two in a row), the chunks joined by
   * blank lines give the text back: no block is lost or reordered.
   */
  lemma {:induction false} ChunksRejoin(text: string, limit: int)
    requires Utf16Len(text) > limit
    requires forall k :: 0 <= k < |Split(text, BlankLine)| ==> Split(text, BlankLine)[k] != ""
    ensures Join(Chunks(text, limit), BlankLine) == text
  {
    var blocks := Split(text, BlankLine);
    PackRejoins(blocks, limit);
    JoinSplit(text, BlankLine);
  }
}
