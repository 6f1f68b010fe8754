/** `SynteticCodeBlock`: a Java formatter block that groups an ordered,
    non-empty list of existing blocks under one alignment, indent and wrap.
    Its text range runs from the start of the first sub-block to the end of the
    last, and it is incomplete exactly when its last sub-block is. */
module JavaFormatter {
  import opened Wrappers

  /** A range of offsets into the document text. */
  datatype TextRange = TextRange(startOffset: int, endOffset: int)

  /** What the synthetic block needs to know of any other formatter block. */
  datatype Block = Block(textRange: TextRange, incomplete: bool)

  /** Formatting attributes the block only stores and hands out; they are
      compared by identity, which `id` stands for. */
  datatype Alignment = Alignment(id: nat)
  datatype Wrap = Wrap(id: nat)
  datatype Indent = Indent(id: nat)

  /** The attributes a child inserted at some index would get. */
  datatype ChildAttributes = ChildAttributes(childIndent: Option<Indent>, alignment: Option<Alignment>)

  /** The fields of a constructed block. `None` stands for a Java `null`. */
  datatype SynteticCodeBlock = SynteticCodeBlock(
    subBlocks: seq<Block>,
    alignment: Option<Alignment>,
    indent: Option<Indent>,
    wrap: Option<Wrap>,
    textRange: TextRange)

  /** Construction with no sub-blocks fails: the constructor asserts, and the
      lookup of the first sub-block then throws. */
  datatype ConstructionError = NoSubBlocks

  /** The invariant every constructed block keeps: sub-blocks are present and
      the range is derived from the first and the last of them. */
  ghost predicate Valid(b: SynteticCodeBlock) {
    && |b.subBlocks| > 0
    && b.textRange.startOffset == b.subBlocks[0].textRange.startOffset
    && b.textRange.endOffset == b.subBlocks[|b.subBlocks| - 1].textRange.endOffset
  }

  /** The constructor. The list is copied, so later changes to the caller's
      list are not seen; with values the copy is the list itself. (The Java
      getter hands out the copy itself, so the block's own list can still be
      changed afterwards; values rule that out.) */
  function NewSynteticCodeBlock(subBlocks: seq<Block>, alignment: Option<Alignment>, indent: Option<Indent>, wrap: Option<Wrap>)
    : (r: Result<SynteticCodeBlock, ConstructionError>)
    ensures r.Failure? <==> |subBlocks| == 0
    ensures r.Success? ==> Valid(r.value) && r.value.subBlocks == subBlocks
    ensures r.Success? ==> r.value.alignment == alignment && r.value.indent == indent && r.value.wrap == wrap
  {
    if |subBlocks| == 0 then Failure(NoSubBlocks)
    else
      var range := TextRange(subBlocks[0].textRange.startOffset, subBlocks[|subBlocks| - 1].textRange.endOffset);
      Success(SynteticCodeBlock(subBlocks, alignment, indent, wrap, range))
  }

  function GetTextRange(b: SynteticCodeBlock): TextRange { b.textRange }

  function GetSubBlocks(b: SynteticCodeBlock): seq<Block> { b.subBlocks }

  function GetWrap(b: SynteticCodeBlock): Option<Wrap> { b.wrap }

  function GetIndent(b: SynteticCodeBlock): Option<Indent> { b.indent }

  function GetAlignment(b: SynteticCodeBlock): Option<Alignment> { b.alignment }

  /** `getChildAttributes`: a new child gets the block's own indent and no
      alignment, wherever it is inserted. */
  function GetChildAttributes(b: SynteticCodeBlock, newChildIndex: int): (r: ChildAttributes)
    ensures r.childIndent == GetIndent(b) && r.alignment.None?
  {
    ChildAttributes(GetIndent(b), None)
  }

  /** `isIncomplete`: the block is incomplete when its last sub-block is. */
  function IsIncomplete(b: SynteticCodeBlock): (r: bool)
    requires Valid(b)
    ensures (forall i :: 0 <= i < |b.subBlocks| ==> !b.subBlocks[i].incomplete) ==> !r
    ensures (forall i :: 0 <= i < |b.subBlocks| ==> b.subBlocks[i].incomplete) ==> r
    ensures r ==> exists i :: 0 <= i < |b.subBlocks| && b.subBlocks[i].incomplete
  {
    GetSubBlocks(b)[|GetSubBlocks(b)| - 1].incomplete
  }

  /** A synthetic block seen as a block of its own, as its enclosing block
      sees it. */
  function AsBlock(b: SynteticCodeBlock): Block
    requires Valid(b)
  {
    Block(GetTextRange(b), IsIncomplete(b))
  }

  /** The getters hand back what the constructor was given: the same blocks
      in the same order, and the same alignment, indent and wrap. */
  lemma GettersReturnConstructorArguments(subBlocks: seq<Block>, alignment: Option<Alignment>, indent: Option<Indent>, wrap: Option<Wrap>)
    requires |subBlocks| > 0
    ensures var b := NewSynteticCodeBlock(subBlocks, alignment, indent, wrap).value;
      && GetSubBlocks(b) == subBlocks
      && GetAlignment(b) == alignment && GetIndent(b) == indent && GetWrap(b) == wrap
      && GetTextRange(b) == TextRange(subBlocks[0].textRange.startOffset, subBlocks[|subBlocks| - 1].textRange.endOffset)
  {
  }

  /** Only the last sub-block decides incompleteness: whatever comes before
      it, the block is incomplete exactly when the last one is. */
  lemma IncompletenessIsTheLastSubBlocks(front: seq<Block>, last: Block, alignment: Option<Alignment>, indent: Option<Indent>, wrap: Option<Wrap>)
    ensures var r := NewSynteticCodeBlock(front + [last], alignment, indent, wrap);
      r.Success? && IsIncomplete(r.value) == last.incomplete
  {
  }

  /** The attributes offered to a new child do not depend on where it goes. */
  lemma ChildAttributesIgnoreIndex(b: SynteticCodeBlock, i: int, j: int)
    ensures GetChildAttributes(b, i) == GetChildAttributes(b, j)
  {
  }

  /** Every range is well formed, and each block ends before the next starts. */
  ghost predicate InTextOrder(blocks: seq<Block>) {
    && (forall k :: 0 <= k < |blocks| ==> blocks[k].textRange.startOffset <= blocks[k].textRange.endOffset)
    && (forall k :: 0 <= k < |blocks| - 1 ==> blocks[k].textRange.endOffset <= blocks[k + 1].textRange.startOffset)
  }

  /** `r` lies within `outer`. */
  predicate Contains(outer: TextRange, r: TextRange) {
    outer.startOffset <= r.startOffset && r.endOffset <= outer.endOffset
  }

  /** For sub-blocks in text order, the derived range is well formed and
      covers every sub-block. */
  lemma RangeCoversSubBlocks(b: SynteticCodeBlock)
    requires Valid(b) && InTextOrder(b.subBlocks)
    ensures b.textRange.startOffset <= b.textRange.endOffset
    ensures forall k :: 0 <= k < |b.subBlocks| ==> Contains(b.textRange, b.subBlocks[k].textRange)
  {
    var s := b.subBlocks;
    forall k | 0 <= k < |s|
      ensures s[0].textRange.startOffset <= s[k].textRange.startOffset
      ensures s[k].textRange.endOffset <= s[|s| - 1].textRange.endOffset
    {
      StartsAscend(s, 0, k);
      EndsAscend(s, k, |s| - 1);
    }
  }

  lemma {:induction false} StartsAscend(s: seq<Block>, i: nat, k: nat)
    requires InTextOrder(s) && i <= k < |s|
    ensures s[i].textRange.startOffset <= s[k].textRange.startOffset
    decreases k - i
  {
    if i < k {
      StartsAscend(s, i, k - 1);
    }
  }

  lemma {:induction false} EndsAscend(s: seq<Block>, k: nat, j: nat)
    requires InTextOrder(s) && k <= j < |s|
    ensures s[k].textRange.endOffset <= s[j].textRange.endOffset
    decreases j - k
  {
    if k < j {
      EndsAscend(s, k + 1, j);
    }
  }

  /** Wrapping a synthetic block alone in another keeps its range and its
      incompleteness. */
  lemma WrappingAloneKeepsExtent(b: SynteticCodeBlock, alignment: Option<Alignment>, indent: Option<Indent>, wrap: Option<Wrap>)
    requires Valid(b)
    ensures var outer := NewSynteticCodeBlock([AsBlock(b)], alignment, indent, wrap);
      outer.Success? && GetTextRange(outer.value) == GetTextRange(b) && IsIncomplete(outer.value) == IsIncomplete(b)
  {
  }
}
