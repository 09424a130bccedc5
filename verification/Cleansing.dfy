/** The three copies of a file's lines that cpplint's `CleansedLines` holds. */
module Cleansing {
  import opened StringCollapse
  import opened RawStrings

  class CleansedLines {
    var elided: seq<string>
    var lines: seq<string>
    const rawLines: seq<string>
    const numLines: nat

    /**
      Every copy has as many lines as the file, and each line of a copy comes
      from the line with the same number.  `cleanseComments` removes the comments
      of one line.
    */
    constructor (raw: seq<string>, cleanseComments: string -> string)
      ensures rawLines == raw && numLines == |raw| == |lines| == |elided| == |OnLines(raw).0|
      ensures forall k :: 0 <= k < |raw| ==>
                && lines[k] == cleanseComments(OnLines(raw).0[k])
                && elided[k] == cleanseComments(CollapseLine(OnLines(raw).0[k]))
    {
      rawLines, numLines := raw, |raw|;
      elided, lines := [], [];
      new;
      var without := CleanseRawStrings(raw);
      SameLength(raw);
      Fill(without, cleanseComments);
    }

    method Fill(without: seq<string>, cleanseComments: string -> string)
      requires lines == [] && elided == []
      modifies this
      ensures |lines| == |elided| == |without|
      ensures forall k :: 0 <= k < |without| ==>
                lines[k] == cleanseComments(without[k]) && elided[k] == cleanseComments(CollapseLine(without[k]))
    {
      for i := 0 to |without|
        invariant |lines| == |elided| == i
        invariant forall k :: 0 <= k < i ==>
                    lines[k] == cleanseComments(without[k]) && elided[k] == cleanseComments(CollapseLine(without[k]))
      {
        var collapsed := CollapseStrings(without[i]);
        lines := lines + [cleanseComments(without[i])];
        elided := elided + [cleanseComments(collapsed)];
      }
    }
  }
}
