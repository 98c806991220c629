/**
 * The copy-button decorator of assets/js/code-blocks.js.
 *
 * Every `pre.highlight` and every `code` directly inside a `pre` is a selected
 * block. The pass gives the block's `pre` a `.copy-button` unless it already
 * holds one, so a `pre.highlight` whose `code` child is selected too still gets
 * a single button. A click writes the code's text to the clipboard; when the
 * write succeeds the label turns to "Copied!" and a timer turns it back to
 * "Copy" 2000 ms later.
 *
 * The clipboard and the timer are modelled as events that the host delivers:
 * `CopyButton` has one method per callback of the source, and `Step` / `Run`
 * model the order in which the host may deliver those events.
 */
module CodeBlocks {
  import opened Wrappers

  const CopyLabel := "Copy"
  const CopiedLabel := "Copied!"

  // ---------------------------------------------------------------------------
  // The page

  /** A `pre` element of the page. */
  class Pre {
    /** The text content of each `code` element inside this `pre`, in document order. */
    const codeTexts: seq<string>
    /** The `.copy-button` elements inside this `pre`. */
    var buttons: seq<CopyButton>

    constructor (codeTexts: seq<string>, buttons: seq<CopyButton>)
      ensures this.codeTexts == codeTexts && this.buttons == buttons
    {
      this.codeTexts := codeTexts;
      this.buttons := buttons;
    }
  }

  /**
   * A block selected by `pre.highlight, pre > code`, with the `pre` it
   * decorates: a `pre.highlight` decorates itself, a `code` its parent `pre`.
   * `ChildCode(pre, k)` is the code element whose text is `pre.codeTexts[k]`.
   */
  datatype Block = HighlightPre(pre: Pre) | ChildCode(pre: Pre, index: nat)

  /** A selected `code` is one of the code elements of its `pre`. */
  predicate WellFormed(b: Block) {
    b.ChildCode? ==> b.index < |b.pre.codeTexts|
  }

  /**
   * The text a click copies: a `code` block's own text; for a `pre.highlight`
   * the text of its first `code`, and nothing when it has none (the source
   * then fails on a null reference before it reaches the clipboard).
   */
  function CopyText(b: Block): Option<string>
    requires WellFormed(b)
  {
    match b
    case ChildCode(pre, k) => Some(pre.codeTexts[k])
    case HighlightPre(pre) => if pre.codeTexts == [] then None else Some(pre.codeTexts[0])
  }

  // ---------------------------------------------------------------------------
  // The label of a button

  /** What happens to a button: a click, the clipboard write settling either way, the reset timer firing. */
  datatype Event = Clicked | WriteResolved | WriteRejected | TimerFired

  /** The label a button shows after an event: only a successful write and the timer change it. */
  function NextLabel(shown: string, e: Event): string {
    match e
    case WriteResolved => CopiedLabel
    case TimerFired => CopyLabel
    case Clicked => shown
    case WriteRejected => shown
  }

  /** A button's label with the clipboard writes and reset timers still outstanding for it. */
  datatype ButtonState = ButtonState(caption: string, pendingWrites: nat, pendingTimers: nat)

  /** A freshly created button. */
  const NewButton := ButtonState(CopyLabel, 0, 0)

  /**
   * One event delivered to a button; `None` when the event cannot happen then
   * (a write settles only if one is outstanding, a timer fires only if one is set).
   * A click issues a write, a successful write sets a timer, and nothing
   * cancels a timer.
   */
  function Step(s: ButtonState, e: Event): (r: Option<ButtonState>)
    ensures r.Some? ==> r.value.caption == NextLabel(s.caption, e)
  {
    match e
    case Clicked => Some(s.(pendingWrites := s.pendingWrites + 1))
    case WriteResolved =>
      if s.pendingWrites == 0 then None
      else Some(ButtonState(CopiedLabel, s.pendingWrites - 1, s.pendingTimers + 1))
    case WriteRejected =>
      if s.pendingWrites == 0 then None else Some(s.(pendingWrites := s.pendingWrites - 1))
    case TimerFired =>
      if s.pendingTimers == 0 then None else Some(s.(caption := CopyLabel, pendingTimers := s.pendingTimers - 1))
  }

  /** A sequence of events delivered in order. */
  function Run(s: ButtonState, events: seq<Event>): Option<ButtonState>
    decreases |events|
  {
    if events == [] then Some(s)
    else match Step(s, events[0])
      case None => None
      case Some(t) => Run(t, events[1..])
  }

  /** The label is one of the two the source writes, and it reads "Copy" whenever no reset timer is outstanding. */
  predicate Consistent(s: ButtonState) {
    (s.caption == CopyLabel || s.caption == CopiedLabel) && (s.pendingTimers == 0 ==> s.caption == CopyLabel)
  }

  /** Every event the host can deliver keeps a button consistent. */
  lemma {:induction false} RunKeepsConsistent(s: ButtonState, events: seq<Event>)
    requires Consistent(s)
    ensures Run(s, events).Some? ==> Consistent(Run(s, events).value)
    decreases |events|
  {
    if events != [] {
      match Step(s, events[0])
      case None =>
      case Some(t) =>
        RunKeepsConsistent(t, events[1..]);
    }
  }

  /** A new button only ever shows "Copy" or "Copied!", and shows "Copy" once its timers have fired. */
  lemma NewButtonLabels(events: seq<Event>)
    requires Run(NewButton, events).Some?
    ensures var t := Run(NewButton, events).value;
      (t.caption == CopyLabel || t.caption == CopiedLabel) && (t.pendingTimers == 0 ==> t.caption == CopyLabel)
  {
    RunKeepsConsistent(NewButton, events);
  }

  /** A successful write shows "Copied!" and the timer it sets brings back "Copy"; a rejected write changes nothing visible. */
  lemma CopyCycle(s: ButtonState)
    requires s.pendingWrites > 0
    ensures Run(s, [WriteResolved]) == Some(ButtonState(CopiedLabel, s.pendingWrites - 1, s.pendingTimers + 1))
    ensures Run(s, [WriteResolved, TimerFired]) == Some(ButtonState(CopyLabel, s.pendingWrites - 1, s.pendingTimers))
    ensures Run(s, [WriteRejected]) == Some(s.(pendingWrites := s.pendingWrites - 1))
  {
    assert [WriteResolved, TimerFired][1..] == [TimerFired];
  }

  /**
   * Nothing ties a timer to the click that set it: after two successful
   * copies, the first timer restores "Copy" while the second is still pending.
   */
  lemma StaleTimerResetsLabel()
    ensures Run(NewButton, [Clicked, WriteResolved, Clicked, WriteResolved, TimerFired])
      == Some(ButtonState(CopyLabel, 0, 1))
  {
    var es := [Clicked, WriteResolved, Clicked, WriteResolved, TimerFired];
    assert es[1..] == [WriteResolved, Clicked, WriteResolved, TimerFired];
    assert es[1..][1..] == [Clicked, WriteResolved, TimerFired];
    assert es[1..][1..][1..] == [WriteResolved, TimerFired];
    assert es[1..][1..][1..][1..] == [TimerFired];
  }

  // ---------------------------------------------------------------------------
  // The button and its callbacks

  class CopyButton {
    var textContent: string
    /** The block whose pass created the button. */
    const block: Block

    constructor (block: Block)
      ensures textContent == CopyLabel && this.block == block
    {
      this.block := block;
      textContent := CopyLabel;
    }

    /** The click handler: the text it hands to the clipboard, if it gets that far. */
    method Click() returns (request: Option<string>)
      requires WellFormed(block)
      ensures request == CopyText(block)
      ensures request.Some? ==> request.value in block.pre.codeTexts
    {
      match block
      case ChildCode(pre, k) => request := Some(pre.codeTexts[k]);
      case HighlightPre(pre) =>
        if pre.codeTexts == [] {
          request := None;
        } else {
          request := Some(pre.codeTexts[0]);
        }
    }

    /** The continuation of a successful clipboard write. */
    method WriteSucceeded()
      modifies this
      ensures textContent == NextLabel(old(textContent), WriteResolved)
    {
      textContent := CopiedLabel;
    }

    /** The reset timer's callback. */
    method ResetTimerFired()
      modifies this
      ensures textContent == NextLabel(old(textContent), TimerFired)
    {
      textContent := CopyLabel;
    }
  }

  // ---------------------------------------------------------------------------
  // The decoration pass

  /** The first selected block that decorates `p`, or `|blocks|` when none does. */
  function FirstBlockOf(blocks: seq<Block>, p: Pre): (j: nat)
    ensures j <= |blocks|
    ensures j < |blocks| ==> blocks[j].pre == p
  {
    FirstBlockFrom(blocks, p, 0)
  }

  /** The first position at or after `from` whose block selects `p`, or `|blocks|`. */
  function FirstBlockFrom(blocks: seq<Block>, p: Pre, from: nat): (j: nat)
    requires from <= |blocks|
    ensures from <= j <= |blocks|
    ensures j < |blocks| ==> blocks[j].pre == p
    decreases |blocks| - from
  {
    if from == |blocks| then from
    else if blocks[from].pre == p then from
    else FirstBlockFrom(blocks, p, from + 1)
  }

  /** No block before `FirstBlockOf(blocks, p)` selects `p`. */
  lemma FirstBlockOfIsFirst(blocks: seq<Block>, p: Pre, k: nat)
    requires k < |blocks| && blocks[k].pre == p
    ensures FirstBlockOf(blocks, p) <= k
  {
    FirstBlockFromIsFirst(blocks, p, 0, k);
  }

  lemma {:induction false} FirstBlockFromIsFirst(blocks: seq<Block>, p: Pre, from: nat, k: nat)
    requires from <= k < |blocks| && blocks[k].pre == p
    ensures FirstBlockFrom(blocks, p, from) <= k
    decreases k - from
  {
    if blocks[from].pre != p {
      FirstBlockFromIsFirst(blocks, p, from + 1, k);
    }
  }

  /** `p` holds a single button labelled "Copy" and bound to block `b`. */
  predicate HoldsNewButton(p: Pre, b: Block)
    reads p, p.buttons
  {
    |p.buttons| == 1 && p.buttons[0].textContent == CopyLabel && p.buttons[0].block == b
  }

  /** The `pre` elements the selected blocks decorate. */
  function Pres(blocks: seq<Block>): set<Pre> {
    set k | 0 <= k < |blocks| :: blocks[k].pre
  }

  /**
   * The callback run for one selected block: its `pre` gets a new button
   * labelled "Copy" and bound to this block, unless it already holds one.
   */
  method DecorateBlock(block: Block)
    modifies block.pre
    ensures old(block.pre.buttons) != [] ==> block.pre.buttons == old(block.pre.buttons)
    ensures old(block.pre.buttons) == [] ==> HoldsNewButton(block.pre, block) && fresh(block.pre.buttons[0])
  {
    var pre := block.pre;
    if pre.buttons == [] {
      var button := new CopyButton(block);
      pre.buttons := pre.buttons + [button];
    }
  }

  /**
   * The pass over the selected blocks in document order. A `pre` that held a
   * button keeps exactly the buttons it had; one that held none now holds a
   * single new button labelled "Copy", bound to the first block that selects it.
   */
  method AddCopyButtons(blocks: seq<Block>)
    modifies Pres(blocks)
    ensures forall p :: p in Pres(blocks) ==> p.buttons != []
    ensures forall p :: p in Pres(blocks) && old(p.buttons) != [] ==> p.buttons == old(p.buttons)
    ensures forall p :: p in Pres(blocks) && old(p.buttons) == [] ==>
      FirstBlockOf(blocks, p) < |blocks| && HoldsNewButton(p, blocks[FirstBlockOf(blocks, p)]) && fresh(p.buttons[0])
  {
    for i := 0 to |blocks|
      invariant forall p :: p in Pres(blocks) && (i <= FirstBlockOf(blocks, p) || old(p.buttons) != []) ==>
        p.buttons == old(p.buttons)
      invariant forall p :: p in Pres(blocks) && FirstBlockOf(blocks, p) < i && old(p.buttons) == [] ==>
        HoldsNewButton(p, blocks[FirstBlockOf(blocks, p)]) && fresh(p.buttons[0])
    {
      var pre := blocks[i].pre;
      assert pre in Pres(blocks);
      if pre.buttons == [] {
        FirstBlockOfIsFirst(blocks, pre, i);
      }
      DecorateBlock(blocks[i]);
    }
    forall p | p in Pres(blocks) ensures FirstBlockOf(blocks, p) < |blocks| {
      var k :| 0 <= k < |blocks| && blocks[k].pre == p;
      FirstBlockOfIsFirst(blocks, p, k);
    }
  }

  /**
   * The duplicate guard does not change what gets copied: when the blocks
   * that select a `pre` are the `pre.highlight` itself and its first `code`,
   * the one button the pass binds to that `pre` copies the first code's text,
   * whichever of the two blocks the pass meets first.
   */
  lemma ButtonCopiesFirstCode(blocks: seq<Block>, p: Pre)
    requires p in Pres(blocks) && p.codeTexts != []
    requires forall k :: 0 <= k < |blocks| && blocks[k].pre == p ==>
      blocks[k] == HighlightPre(p) || blocks[k] == ChildCode(p, 0)
    ensures FirstBlockOf(blocks, p) < |blocks|
    ensures WellFormed(blocks[FirstBlockOf(blocks, p)])
    ensures CopyText(blocks[FirstBlockOf(blocks, p)]) == Some(p.codeTexts[0])
  {
    var k :| 0 <= k < |blocks| && blocks[k].pre == p;
    FirstBlockOfIsFirst(blocks, p, k);
  }
}
