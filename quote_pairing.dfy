/**
 * The editor extension that turns a typed `"` into the guillemet pair
 * `«»` and deletes a `«»` pair with one backspace.
 *
 * The editor document is a string; a change reported by the editor is a
 * record of its old range (`fromA`, `toA`), its new range (`fromB`, `toB`)
 * and the inserted text; a transaction spec is a splice of the document with
 * an optional cursor position.  What the extension hands to the editor is a
 * sequence of dispatches: a batch of transaction specs, or a new selection.
 */
module QuotePairing {
  import opened Wrappers

  const OpenQuote: char := '\U{AB}'   // «
  const CloseQuote: char := '\U{BB}'  // »
  const TypedQuote: char := '"'

  const InputType: string := "input.type"
  const DeleteBackward: string := "delete.backward"

  /** Replace `[from, to)` of the document by `insert`. */
  datatype Splice = Splice(from: int, to: int, insert: string)

  /** A transaction spec: its change and, when it sets one, the cursor. */
  datatype TransactionSpec = TransactionSpec(changes: Splice, cursor: Option<int>)

  /** A selection range; `from`/`to` are its ordered ends. */
  datatype SelectionRange = SelectionRange(anchor: int, head: int)
  {
    function From(): int { if anchor <= head then anchor else head }
    function To(): int { if anchor <= head then head else anchor }
    predicate Empty() { anchor == head }
  }

  function Cursor(pos: int): SelectionRange
  {
    SelectionRange(pos, pos)
  }

  /** One entry of the transaction's change set, as `iterChanges` reports
      it: old range, new range, inserted text. */
  datatype Change = Change(fromA: int, toA: int, fromB: int, toB: int, inserted: string)

  /** What is handed to `view.dispatch`. */
  datatype Dispatch = Apply(specs: seq<TransactionSpec>) | Select(ranges: seq<SelectionRange>)

  // ---------------------------------------------------------------------
  // Reading the document

  /** Clamp a position into `[0, len]`. */
  function Clip(pos: int, len: nat): (r: nat)
    ensures r <= len
    ensures 0 <= pos <= len ==> r == pos
  {
    if pos < 0 then 0 else if pos > len then len else pos
  }

  /** `doc.sliceString(from, to)`: the editor clamps both ends into the
      document and an inverted range reads as empty. */
  function SliceString(doc: string, from: int, to: int): (r: string)
    ensures 0 <= from <= to <= |doc| ==> r == doc[from..to]
    ensures to <= from ==> r == ""
    ensures |r| <= |doc|
  {
    var f := Clip(from, |doc|);
    var t := Clip(to, |doc|);
    if t <= f then "" else doc[f..t]
  }

  /** `findNextSybmol(doc, from)`: the one character after position `from`,
      or the empty string past either end of the document. */
  function FindNextSymbol(doc: string, from: int): (r: string)
    ensures r == if 0 <= from + 1 < |doc| then [doc[from + 1]] else ""
  {
    SliceString(doc, from + 1, from + 2)
  }

  // ---------------------------------------------------------------------
  // Choosing the change to react to

  /** Whether the change is one the extension reacts to: on a backward
      delete, the removed old text is exactly `«` and the old character
      after it is `»`; while typing, the inserted text contains `"`. */
  predicate Qualifies(isDelete: bool, startDoc: string, c: Change)
  {
    if isDelete then
      SliceString(startDoc, c.fromA, c.toA) == [OpenQuote]
      && FindNextSymbol(startDoc, c.fromA) == [CloseQuote]
    else
      TypedQuote in c.inserted
  }

  /** A backward delete qualifies exactly when it removes a single `«` of
      the old document that is directly followed by `»`. */
  lemma DeleteQualifies(startDoc: string, c: Change)
    ensures Qualifies(true, startDoc, c) <==>
      0 <= c.fromA && c.toA == c.fromA + 1 && c.fromA + 1 < |startDoc|
      && startDoc[c.fromA] == OpenQuote && startDoc[c.fromA + 1] == CloseQuote
  {
    if Qualifies(true, startDoc, c) {
      var f := Clip(c.fromA, |startDoc|);
      var t := Clip(c.toA, |startDoc|);
      assert f < t && startDoc[f..t] == [OpenQuote];
      assert t == f + 1;
      assert 0 <= c.fromA + 1 < |startDoc|;
      assert startDoc[c.fromA + 1] == CloseQuote;
      assert f == c.fromA;
      assert startDoc[f] == OpenQuote;
    }
  }

  /** The index of the last qualifying change, if any. */
  function LastQualifying(isDelete: bool, startDoc: string, changes: seq<Change>): (k: Option<nat>)
    ensures k.None? <==> forall j :: 0 <= j < |changes| ==> !Qualifies(isDelete, startDoc, changes[j])
    ensures k.Some? ==> k.value < |changes| && Qualifies(isDelete, startDoc, changes[k.value])
    ensures k.Some? ==> forall j :: k.value < j < |changes| ==> !Qualifies(isDelete, startDoc, changes[j])
  {
    if changes == [] then None
    else if Qualifies(isDelete, startDoc, changes[|changes| - 1]) then Some(|changes| - 1)
    else LastQualifying(isDelete, startDoc, changes[..|changes| - 1])
  }

  /** Change `k` qualifies and no later change does. */
  predicate IsLastQualifying(isDelete: bool, startDoc: string, changes: seq<Change>, k: int)
  {
    0 <= k < |changes| && Qualifies(isDelete, startDoc, changes[k])
    && forall j :: k < j < |changes| ==> !Qualifies(isDelete, startDoc, changes[j])
  }

  /** The new range `(fromB, toB)` of the last qualifying change. */
  function TargetOf(isDelete: bool, startDoc: string, changes: seq<Change>): (t: Option<(int, int)>)
    ensures t.None? <==> forall j :: 0 <= j < |changes| ==> !Qualifies(isDelete, startDoc, changes[j])
    ensures t.Some? ==> exists k :: IsLastQualifying(isDelete, startDoc, changes, k) && t.value == (changes[k].fromB, changes[k].toB)
  {
    match LastQualifying(isDelete, startDoc, changes)
    case None => None
    case Some(k) => Some((changes[k].fromB, changes[k].toB))
  }

  /** The `iterChanges` callback of `handleUpdate`: every qualifying change
      overwrites `from` and `to`, so the last one wins. */
  method ChooseTarget(isDelete: bool, startDoc: string, changes: seq<Change>)
    returns (target: Option<(int, int)>)
    ensures target == TargetOf(isDelete, startDoc, changes)
    ensures target.None? <==> forall j :: 0 <= j < |changes| ==> !Qualifies(isDelete, startDoc, changes[j])
  {
    target := None;
    for i := 0 to |changes|
      invariant target == TargetOf(isDelete, startDoc, changes[..i])
    {
      var c := changes[i];
      TargetOfStep(isDelete, startDoc, changes, i);
      if isDelete && SliceString(startDoc, c.fromA, c.toA) == [OpenQuote]
        && FindNextSymbol(startDoc, c.fromA) == [CloseQuote]
      {
        target := Some((c.fromB, c.toB));
        continue;
      }
      if !isDelete && TypedQuote in c.inserted {
        target := Some((c.fromB, c.toB));
      }
    }
    assert changes[..|changes|] == changes;
  }

  /** One more change: it becomes the target when it qualifies, and the
      target of the earlier changes stands otherwise. */
  lemma TargetOfStep(isDelete: bool, startDoc: string, changes: seq<Change>, i: nat)
    requires i < |changes|
    ensures TargetOf(isDelete, startDoc, changes[..i + 1])
      == if Qualifies(isDelete, startDoc, changes[i]) then Some((changes[i].fromB, changes[i].toB))
         else TargetOf(isDelete, startDoc, changes[..i])
  {
    assert changes[..i + 1][..i] == changes[..i];
    assert changes[..i + 1][i] == changes[i];
  }

  // ---------------------------------------------------------------------
  // The edits

  /** The second half of a pair deletion: remove the one character at
      `from`. */
  function DeletePair(from: int): TransactionSpec
  {
    TransactionSpec(Splice(from, from + 1, ""), None)
  }

  /** `addQuotes(from, to)`: replace `[from, to)` by `«»` and put the cursor
      between the two marks. */
  function AddQuotes(from: int, to: int): TransactionSpec
  {
    TransactionSpec(Splice(from, to, [OpenQuote, CloseQuote]), Some(from + 1))
  }

  /** `wrapQuotes(range)`: replace the character before and the character
      after the selection by `«` and `»`, keeping the selected text. */
  function WrapQuotes(doc: string, range: SelectionRange): TransactionSpec
  {
    var text := SliceString(doc, range.From(), range.To());
    TransactionSpec(Splice(range.From() - 1, range.To() + 1, [OpenQuote] + text + [CloseQuote]), None)
  }

  /** The document after a splice that fits inside it. */
  function ApplySplice(doc: string, s: Splice): (r: string)
    requires 0 <= s.from <= s.to <= |doc|
    ensures |r| == |doc| - (s.to - s.from) + |s.insert|
  {
    doc[..s.from] + s.insert + doc[s.to..]
  }

  /** After `addQuotes`, the range holds `«»`, the cursor sits between the
      marks, and the text on either side is unchanged. */
  lemma AddQuotesEffect(doc: string, from: int, to: int)
    requires 0 <= from <= to <= |doc|
    ensures var d := ApplySplice(doc, AddQuotes(from, to).changes);
      var c := AddQuotes(from, to).cursor;
      c == Some(from + 1) && 0 < c.value < |d|
      && d[c.value - 1] == OpenQuote && d[c.value] == CloseQuote
      && d[..from] == doc[..from] && d[from + 2..] == doc[to..]
  {
    var d := ApplySplice(doc, AddQuotes(from, to).changes);
    assert d == doc[..from] + [OpenQuote, CloseQuote] + doc[to..];
    assert d[from + 2..] == doc[to..];
  }

  /** After `wrapQuotes`, the character before the selection is `«`, the
      one after it is `»`, and every other character, the selected text
      included, is unchanged; so the range still selects the same text. */
  lemma WrapQuotesEffect(doc: string, range: SelectionRange)
    requires 1 <= range.From() && range.To() + 1 <= |doc|
    ensures var d := ApplySplice(doc, WrapQuotes(doc, range).changes);
      |d| == |doc| && d[range.From() - 1] == OpenQuote && d[range.To()] == CloseQuote
      && d[range.From()..range.To()] == doc[range.From()..range.To()]
      && forall i :: 0 <= i < |doc| && i != range.From() - 1 && i != range.To() ==> d[i] == doc[i]
  {
    var f, t := range.From(), range.To();
    var d := ApplySplice(doc, WrapQuotes(doc, range).changes);
    assert d == doc[..f - 1] + ([OpenQuote] + doc[f..t] + [CloseQuote]) + doc[t + 1..];
    forall i | 0 <= i < |doc| && i != f - 1 && i != t
      ensures d[i] == doc[i]
    {
      if i < f - 1 {
      } else if i < t {
        assert d[i] == doc[f..t][i - f];
      } else {
        assert d[i] == doc[t + 1..][i - t - 1];
      }
    }
  }

  /** A backspace over a `«` that is followed by `»` leaves the `»` at the
      position where the `«` was; the pair deletion then removes it, so
      the two edits together take out exactly the pair. */
  lemma DeletePairEffect(startDoc: string, p: int)
    requires 0 <= p && p + 1 < |startDoc|
    requires startDoc[p] == OpenQuote && startDoc[p + 1] == CloseQuote
    ensures var afterBackspace := startDoc[..p] + startDoc[p + 1..];
      afterBackspace[p] == CloseQuote
      && ApplySplice(afterBackspace, DeletePair(p).changes) == startDoc[..p] + startDoc[p + 2..]
  {
    var d := startDoc[..p] + startDoc[p + 1..];
    assert d[p] == startDoc[p + 1];
    assert d[..p] == startDoc[..p];
    assert d[p + 1..] == startDoc[p + 2..];
  }

  /** The pair deletion removes one character and nothing else. */
  lemma DeletePairRemovesOne(doc: string, from: int)
    requires 0 <= from < |doc|
    ensures var d := ApplySplice(doc, DeletePair(from).changes);
      |d| == |doc| - 1 && d[..from] == doc[..from] && d[from..] == doc[from + 1..]
  {
    var d := ApplySplice(doc, DeletePair(from).changes);
    assert d == doc[..from] + doc[from + 1..];
  }

  // ---------------------------------------------------------------------
  // handleChanges

  /** Whether the editor accepts the splice on `doc`.  `state.update` throws
      a RangeError for a change range that leaves the document, so the
      listener stops there and nothing is dispatched. */
  predicate Fits(doc: string, s: Splice)
  {
    0 <= s.from <= s.to <= |doc|
  }

  /** The edit for one range of a multi-range selection. */
  function QuoteEdit(doc: string, range: SelectionRange): TransactionSpec
  {
    if range.Empty() then AddQuotes(range.From() - 1, range.To() + 1) else WrapQuotes(doc, range)
  }

  /** Every range's edit is accepted by the editor. */
  predicate AllFit(doc: string, ranges: seq<SelectionRange>)
  {
    forall k :: 0 <= k < |ranges| ==> Fits(doc, QuoteEdit(doc, ranges[k]).changes)
  }

  /** Both kinds of per-range edit replace one character on each side of
      the range, so they are accepted exactly when every range has a
      character before and after it. */
  lemma AllFitRanges(doc: string, ranges: seq<SelectionRange>)
    ensures AllFit(doc, ranges) <==>
      forall k :: 0 <= k < |ranges| ==> 1 <= ranges[k].From() && ranges[k].To() + 1 <= |doc|
  {
  }

  /** The selection rebuilt for one range: a cursor at `from` for an empty
      range, anchor and head kept otherwise; either way the range itself. */
  function RestoredSelection(range: SelectionRange): (s: SelectionRange)
    ensures s == range
  {
    if range.Empty() then Cursor(range.From()) else SelectionRange(range.anchor, range.head)
  }

  predicate IsSingleCursor(ranges: seq<SelectionRange>)
  {
    |ranges| == 1 && ranges[0].Empty()
  }

  /** What `handleChanges` dispatches for the typed range `[from, to)`:
      nothing at all when an edit it builds leaves the document. */
  function ChangesDispatches(doc: string, ranges: seq<SelectionRange>, from: int, to: int): seq<Dispatch>
  {
    if IsSingleCursor(ranges) then
      if Fits(doc, AddQuotes(from, to).changes) then [Apply([AddQuotes(from, to)])] else []
    else if !AllFit(doc, ranges) then []
    else
      [Apply(seq(|ranges|, k requires 0 <= k < |ranges| => QuoteEdit(doc, ranges[k])))]
      + if |ranges| > 0 then [Select(seq(|ranges|, k requires 0 <= k < |ranges| => RestoredSelection(ranges[k])))]
        else []
  }

  /** With several ranges (or one non-empty one), nothing is dispatched when
      some range's edit leaves the document.  Otherwise one edit is produced
      per range in range order: an empty range gets `«»` over the character
      on each side with its cursor back at the range's position, a non-empty
      range is wrapped; and the selection dispatched afterwards holds the
      same ranges. */
  lemma MultiRangeEdits(doc: string, ranges: seq<SelectionRange>, from: int, to: int)
    requires !IsSingleCursor(ranges)
    ensures !AllFit(doc, ranges) ==> ChangesDispatches(doc, ranges, from, to) == []
    ensures AllFit(doc, ranges) ==>
      var ds := ChangesDispatches(doc, ranges, from, to);
      |ds| == (if ranges == [] then 1 else 2) && ds[0].Apply? && |ds[0].specs| == |ranges|
      && (ranges != [] ==> ds[1] == Select(ranges))
      && (forall k :: 0 <= k < |ranges| && ranges[k].Empty() ==>
            ds[0].specs[k].changes == Splice(ranges[k].From() - 1, ranges[k].From() + 1, [OpenQuote, CloseQuote])
            && ds[0].specs[k].cursor == Some(ranges[k].From()))
      && (forall k :: 0 <= k < |ranges| && !ranges[k].Empty() ==>
            ds[0].specs[k] == WrapQuotes(doc, ranges[k]))
  {
    if ranges != [] {
      var sels := seq(|ranges|, k requires 0 <= k < |ranges| => RestoredSelection(ranges[k]));
      assert sels == ranges;
    }
  }

  /** Two cursors, with `"` typed at the start of the line `"\n"` and at its
      end: the edit for the cursor at the end of the document would replace
      `[2, 4)` of a three-character document, so nothing is dispatched. */
  lemma QuoteAtDocumentEnd()
    ensures TargetOf(false, "\n", [Change(0, 0, 0, 1, "\""), Change(1, 1, 2, 3, "\"")]) == Some((2, 3))
    ensures ChangesDispatches("\"\n\"", [Cursor(1), Cursor(3)], 2, 3) == []
  {
    assert !Fits("\"\n\"", QuoteEdit("\"\n\"", [Cursor(1), Cursor(3)][1]).changes);
  }

  /** Two cursors, with `"` typed at 0 and at 1 of `"ab"`: the last
      qualifying change is the second one, so the 0-test lets it through,
      and the loop rewrites both cursors, the one that typed at 0 included. */
  lemma QuoteAtDocumentStart()
    ensures TargetOf(false, "ab", [Change(0, 0, 0, 1, "\""), Change(1, 1, 2, 3, "\"")]) == Some((2, 3))
    ensures ChangesDispatches("\"a\"b", [Cursor(1), Cursor(3)], 2, 3)
      == [Apply([AddQuotes(0, 2), AddQuotes(2, 4)]), Select([Cursor(1), Cursor(3)])]
  {
    var ranges := [Cursor(1), Cursor(3)];
    assert AllFit("\"a\"b", ranges);
    assert seq(2, k requires 0 <= k < 2 => QuoteEdit("\"a\"b", ranges[k])) == [AddQuotes(0, 2), AddQuotes(2, 4)];
    assert seq(2, k requires 0 <= k < 2 => RestoredSelection(ranges[k])) == ranges;
  }

  /** `handleChanges`: the fast path for a single cursor, otherwise a loop
      over the ranges collecting one edit and one restored selection per
      range; an edit outside the document aborts the whole call. */
  method HandleChanges(doc: string, ranges: seq<SelectionRange>, from: int, to: int)
    returns (ds: seq<Dispatch>)
    ensures ds == ChangesDispatches(doc, ranges, from, to)
    ensures IsSingleCursor(ranges) && 0 <= from <= to <= |doc| ==> ds == [Apply([AddQuotes(from, to)])]
    ensures IsSingleCursor(ranges) && !Fits(doc, AddQuotes(from, to).changes) ==> ds == []
    ensures !IsSingleCursor(ranges) && !AllFit(doc, ranges) ==> ds == []
  {
    if |ranges| == 1 && ranges[0].Empty() {
      var transaction := AddQuotes(from, to);
      if !Fits(doc, transaction.changes) {
        return [];
      }
      ds := [Apply([transaction])];
      return;
    }
    var transactions: seq<TransactionSpec> := [];
    var selections: seq<SelectionRange> := [];
    for i := 0 to |ranges|
      invariant |transactions| == i && |selections| == i
      invariant forall k :: 0 <= k < i ==> transactions[k] == QuoteEdit(doc, ranges[k])
      invariant forall k :: 0 <= k < i ==> Fits(doc, transactions[k].changes)
      invariant forall k :: 0 <= k < i ==> selections[k] == RestoredSelection(ranges[k])
    {
      var range := ranges[i];
      var transaction := if range.Empty() then AddQuotes(range.From() - 1, range.To() + 1)
                         else WrapQuotes(doc, range);
      if !Fits(doc, transaction.changes) {
        assert !Fits(doc, QuoteEdit(doc, ranges[i]).changes);
        return [];
      }
      transactions := transactions + [transaction];
      selections := selections + [if range.Empty() then Cursor(range.From())
                                  else SelectionRange(range.anchor, range.head)];
    }
    assert transactions == seq(|ranges|, k requires 0 <= k < |ranges| => QuoteEdit(doc, ranges[k]));
    assert selections == seq(|ranges|, k requires 0 <= k < |ranges| => RestoredSelection(ranges[k]));
    ds := [Apply(transactions)];
    if |selections| > 0 {
      ds := ds + [Select(selections)];
    }
  }

  // ---------------------------------------------------------------------
  // handleUpdate

  predicate IsHandledEvent(event: Option<string>)
  {
    event == Some(InputType) || event == Some(DeleteBackward)
  }

  /** `handleUpdate` for one transaction: `event` is its user-event
      annotation, `startDoc` the document before it, `changes` its change
      set, `doc` and `ranges` the editor's document and selection after it.
      Only typing and backward deletion react; nothing happens when no change
      qualified or when the chosen `from` or `to` is 0; a backward delete
      then removes the character at `from` when there is one, typing goes to
      `handleChanges`. */
  method HandleUpdate(event: Option<string>, startDoc: string, changes: seq<Change>,
                      doc: string, ranges: seq<SelectionRange>)
    returns (ds: seq<Dispatch>)
    ensures !IsHandledEvent(event) ==> ds == []
    ensures IsHandledEvent(event) ==>
      var isDelete := event == Some(DeleteBackward);
      match TargetOf(isDelete, startDoc, changes)
      case None => ds == []
      case Some((from, to)) =>
        if from == 0 || to == 0 then ds == []
        else if isDelete then ds == (if 0 <= from < |doc| then [Apply([DeletePair(from)])] else [])
        else ds == ChangesDispatches(doc, ranges, from, to)
  {
    var isDelete := event == Some(DeleteBackward);
    if event != Some(InputType) && !isDelete {
      return [];
    }
    var target := ChooseTarget(isDelete, startDoc, changes);
    if target.None? || target.value.0 == 0 || target.value.1 == 0 {
      return [];
    }
    var (from, to) := target.value;
    if isDelete {
      var transaction := DeletePair(from);
      if !Fits(doc, transaction.changes) {
        return [];
      }
      ds := [Apply([transaction])];
    } else {
      ds := HandleChanges(doc, ranges, from, to);
    }
  }
}
