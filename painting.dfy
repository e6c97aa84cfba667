/**
 * The colour-writing loops the circle widgets share.
 */
module Painting {
  import opened Wrappers
  import opened Rings

  /**
   * `for bubble in ring: bubble.bgcolor = colors[0]; colors.rotate(-1)`:
   * every slot of the ring is painted, slot `j` with the colour `j` places
   * from the front of the deque, counted round the deque.
   */
  method PaintInOrder<C>(fills: seq<Option<C>>, colours: seq<C>) returns (painted: seq<Option<C>>)
    requires |colours| > 0
    ensures |painted| == |fills|
    ensures forall j :: 0 <= j < |fills| ==> painted[j] == Some(colours[j % |colours|])
  {
    var deque := colours;
    painted := fills;
    RotateZero(colours);
    for j := 0 to |fills|
      invariant |painted| == |fills|
      invariant deque == Rotate(colours, -j)
      invariant forall i :: 0 <= i < j ==> painted[i] == Some(colours[i % |colours|])
    {
      LeftStepsFront(colours, j);
      painted := painted[j := Some(deque[0])];
      deque := RotateLeft1(deque);
    }
  }

  /** `for bubble in bubbles: bubble.bgcolor = colour`: every slot gets the same colour. */
  method PaintAll<C>(fills: seq<Option<C>>, colour: C) returns (painted: seq<Option<C>>)
    ensures |painted| == |fills|
    ensures forall j :: 0 <= j < |fills| ==> painted[j] == Some(colour)
  {
    painted := fills;
    for j := 0 to |fills|
      invariant |painted| == |fills|
      invariant forall i :: 0 <= i < j ==> painted[i] == Some(colour)
    {
      painted := painted[j := Some(colour)];
    }
  }

  /**
   * `for container, colour in zip(ring, colours): container.bgcolor = colour`:
   * the slots are painted in step with the colour list, as far as both reach.
   */
  method PaintAlong<C>(fills: seq<Option<C>>, colours: seq<C>) returns (painted: seq<Option<C>>)
    ensures |painted| == |fills|
    ensures forall j :: 0 <= j < |fills| && j < |colours| ==> painted[j] == Some(colours[j])
    ensures forall j :: |colours| <= j < |fills| ==> painted[j] == fills[j]
  {
    painted := fills;
    var n := if |fills| < |colours| then |fills| else |colours|;
    for j := 0 to n
      invariant |painted| == |fills|
      invariant forall i :: 0 <= i < j ==> painted[i] == Some(colours[i])
      invariant forall i :: j <= i < |fills| ==> painted[i] == fills[i]
    {
      painted := painted[j := Some(colours[j])];
    }
  }

  /** After `colors.rotate(k)`, painting in order gives slot `j` the entry `(j - k)` places round the table. */
  lemma RotatedPaint<C>(painted: seq<Option<C>>, colours: seq<C>, k: int)
    requires |painted| == |colours| > 0
    requires forall j :: 0 <= j < |painted| ==> painted[j] == Some(Rotate(colours, k)[j % |colours|])
    ensures forall j :: 0 <= j < |painted| ==> painted[j] == Some(colours[(j - k) % |colours|])
  {
    forall j | 0 <= j < |painted| ensures painted[j] == Some(colours[(j - k) % |colours|]) {
      ModUnique(j, |colours|, 0, j);
    }
  }
}
