/** From one batch of text changes to what the parser is told: nothing, a full
    reparse, or an edit descriptor followed by an incremental reparse. */
module Edits {
  import opened Tree
  import opened Coordinates

  newtype byte = x: int | 0 <= x < 256

  const Placeholder: byte := 63  // '?'

  /** `encode("ascii", errors="replace")` of one character. */
  function AsciiByte(c: char): byte
  {
    if c as int < 128 then c as int as byte else Placeholder
  }

  /** The buffer handed to the parser: one byte per character, so that the
      byte offset of a character is its character offset. */
  function Project(s: string): (b: seq<byte>)
    ensures |b| == |s|
  {
    if |s| == 0 then [] else [AsciiByte(s[0])] + Project(s[1..])
  }

  /** Each character becomes exactly the byte `encode` gives it. */
  lemma {:induction false} ProjectBytes(s: string)
    ensures forall i :: 0 <= i < |s| ==> Project(s)[i] == AsciiByte(s[i])
    decreases |s|
  {
    if |s| > 0 {
      ProjectBytes(s[1..]);
    }
  }

  lemma {:induction false} ProjectConcat(a: string, b: string)
    ensures Project(a + b) == Project(a) + Project(b)
    decreases |a|
  {
    if |a| == 0 {
      assert a + b == b;
    } else {
      assert (a + b)[1..] == a[1..] + b;
      ProjectConcat(a[1..], b);
    }
  }

  /** Byte `k` of the buffer is the projection of character `k`, so the byte
      prefix before character `k` is the projection of the first `k` characters. */
  lemma ByteOffsetIsCharOffset(s: string, k: nat)
    requires k <= |s|
    ensures Project(s)[..k] == Project(s[..k])
  {
    assert s == s[..k] + s[k..];
    ProjectConcat(s[..k], s[k..]);
  }

  function DecodeAscii(b: seq<byte>): (s: string)
    ensures |s| == |b|
  {
    if |b| == 0 then "" else [b[0] as int as char] + DecodeAscii(b[1..])
  }

  /** ASCII text survives the projection unchanged. */
  lemma {:induction false} AsciiSurvives(s: string)
    requires forall i :: 0 <= i < |s| ==> s[i] as int < 128
    ensures DecodeAscii(Project(s)) == s
    decreases |s|
  {
    if |s| > 0 {
      AsciiSurvives(s[1..]);
      assert Project(s)[1..] == Project(s[1..]);
    }
  }

  /** One text change as the editor reports it: positions are tk indices. */
  datatype Change = Change(start: TkIndex, oldEnd: TkIndex, newEnd: TkIndex, oldText: string, newText: string)

  /** The arguments of `Tree.edit`. */
  datatype EditDescriptor = EditDescriptor(
    startByte: int, oldEndByte: int, newEndByte: int,
    startPoint: Point, oldEndPoint: Point, newEndPoint: Point)

  datatype ReparsePlan = NoChange | FullReparse | Incremental(edit: EditDescriptor)

  /** The descriptor of a single change whose start lies `startByte`
      characters into the buffer (tk's `count -chars` from `1.0`). */
  function Describe(change: Change, startByte: nat): EditDescriptor
  {
    EditDescriptor(
      startByte, startByte + |change.oldText|, startByte + |change.newText|,
      ToPoint(change.start), ToPoint(change.oldEnd), ToPoint(change.newEnd))
  }

  /** `on_change`: nothing for an empty batch, a full reparse for two or more
      changes, an incremental edit for exactly one. Every plan but `NoChange`
      is followed by retagging the visible area. */
  function PlanReparse(changes: seq<Change>, startByte: nat): (plan: ReparsePlan)
    ensures plan.NoChange? <==> |changes| == 0
    ensures plan.FullReparse? <==> |changes| >= 2
    ensures plan.Incremental? ==>
      && |changes| == 1
      && plan.edit.startByte == startByte
      && plan.edit.oldEndByte - plan.edit.startByte == |changes[0].oldText|
      && plan.edit.newEndByte - plan.edit.startByte == |changes[0].newText|
      && ToTk(plan.edit.startPoint) == changes[0].start
      && ToTk(plan.edit.oldEndPoint) == changes[0].oldEnd
      && ToTk(plan.edit.newEndPoint) == changes[0].newEnd
  {
    if |changes| == 0 then NoChange
    else if |changes| >= 2 then FullReparse
    else Incremental(Describe(changes[0], startByte))
  }

  /** The descriptor says exactly how the parser's byte buffer changed: the
      bytes before `startByte` are untouched, the old bytes up to
      `oldEndByte` are the old text, the new bytes up to `newEndByte` are the
      new text, and what followed the old end now follows the new end. */
  lemma DescriptorMatchesBuffers(before: string, change: Change, startByte: nat)
    requires startByte + |change.oldText| <= |before|
    requires before[startByte..startByte + |change.oldText|] == change.oldText
    ensures
      var after := before[..startByte] + change.newText + before[startByte + |change.oldText|..];
      var d := Describe(change, startByte);
      && 0 <= d.startByte <= d.oldEndByte <= |Project(before)|
      && 0 <= d.startByte <= d.newEndByte <= |Project(after)|
      && Project(after)[..d.startByte] == Project(before)[..d.startByte]
      && Project(before)[d.startByte..d.oldEndByte] == Project(change.oldText)
      && Project(after)[d.startByte..d.newEndByte] == Project(change.newText)
      && Project(after)[d.newEndByte..] == Project(before)[d.oldEndByte..]
  {
    var o, m := startByte, startByte + |change.oldText|;
    var after := before[..o] + change.newText + before[m..];
    var p, x, q := Project(before[..o]), Project(change.newText), Project(before[m..]);
    ProjectConcat(before[..o] + change.newText, before[m..]);
    ProjectConcat(before[..o], change.newText);
    assert Project(after) == p + x + q;
    assert before == before[..o] + change.oldText + before[m..];
    ProjectConcat(before[..o] + change.oldText, before[m..]);
    ProjectConcat(before[..o], change.oldText);
    assert Project(before) == p + Project(change.oldText) + q;
  }

  /** Typing one character: the old range is empty and the new one is one byte long. */
  lemma SingleInsertion(at: TkIndex, after: TkIndex, c: char, startByte: nat)
    ensures
      var plan := PlanReparse([Change(at, at, after, "", [c])], startByte);
      && plan.Incremental?
      && plan.edit.oldEndByte == plan.edit.startByte
      && plan.edit.newEndByte - plan.edit.startByte == 1
      && plan.edit.oldEndPoint == plan.edit.startPoint
  {
  }
}
