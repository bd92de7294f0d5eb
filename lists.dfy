/**
 * `convertLists`: one pass over the lines of the text with a single flag,
 * "inside a list". A line starting with "- " is a list item; the first item
 * of a list is preceded by "[list]"; inside a list a blank line closes it
 * with "[/list]\n" and any other non-item line is dropped; outside a list
 * non-item lines are copied; a list still open at the end is closed with
 * "[/list]".
 *
 * The specification tags every emitted line with what it is (`Entry`), so
 * that properties can speak of list markers and copied lines apart, even
 * when a copied line happens to read "[list]".
 */
module Lists {
  import opened Wrappers
  import opened Strings

  /** A list item line. */
  predicate IsItem(line: string) {
    StartsWith(line, "- ")
  }

  /** One emitted line. */
  datatype Entry =
    | Open                      // "[list]"
    | Item(body: string)        // "[*] " + body
    | Close(byBlankLine: bool)  // "[/list]\n" when a blank line closes the list, "[/list]" at the end
    | Copied(line: string)      // a line outside any list, unchanged

  /** The text of an emitted line. */
  function RenderEntry(e: Entry): string {
    match e
    case Open => "[list]"
    case Item(body) => "[*] " + body
    case Close(byBlankLine) => if byBlankLine then "[/list]\n" else "[/list]"
    case Copied(line) => line
  }

  /** The text of every emitted line, in order. */
  function RenderAll(es: seq<Entry>): seq<string> {
    if es == [] then [] else RenderAll(es[..|es| - 1]) + [RenderEntry(es[|es| - 1])]
  }

  /** The state of the pass: the flag and what has been emitted so far. */
  datatype Scan = Scan(inList: bool, entries: seq<Entry>)

  /** What one line does to the state. A blank line is one that `trim` empties (see `Strings.Trim`). */
  function Step(st: Scan, line: string): Scan {
    if IsItem(line) then
      Scan(true, st.entries + (if st.inList then [] else [Open]) + [Item(line[2..])])
    else if st.inList then
      if IsBlank(line) then Scan(false, st.entries + [Close(true)]) else st
    else
      Scan(false, st.entries + [Copied(line)])
  }

  /**
   * The pass only pushes: what was emitted before a line is kept as it is.
   * Afterwards the pass is inside a list exactly when the line is an item, or
   * it was inside one and the line is not blank.
   */
  lemma StepAppends(st: Scan, line: string)
    ensures var r := Step(st, line);
            && |st.entries| <= |r.entries| && r.entries[..|st.entries|] == st.entries
            && (r.inList <==> IsItem(line) || (st.inList && !IsBlank(line)))
  {
  }

  /** The state after the given lines, from "outside a list" with nothing emitted. */
  function ScanLines(lines: seq<string>): Scan {
    if lines == [] then Scan(false, [])
    else Step(ScanLines(lines[..|lines| - 1]), lines[|lines| - 1])
  }

  /** Everything emitted for the lines, including the closing marker of a list left open. */
  function Entries(lines: seq<string>): seq<Entry> {
    var st := ScanLines(lines);
    if st.inList then st.entries + [Close(false)] else st.entries
  }

  /** The result of `convertLists`. */
  function ListMarkup(text: string): string {
    Join(RenderAll(Entries(SplitLines(text))), "\n")
  }

  /** Emitting one more entry adds its text at the end. */
  lemma RenderAllSnoc(es: seq<Entry>, e: Entry)
    ensures RenderAll(es + [e]) == RenderAll(es) + [RenderEntry(e)]
  {
    assert (es + [e])[..|es|] == es;
  }

  /** The state after one more line is one step from the state before it. */
  lemma ScanLinesSnoc(lines: seq<string>, i: nat)
    requires i < |lines|
    ensures ScanLines(lines[..i + 1]) == Step(ScanLines(lines[..i]), lines[i])
  {
    assert lines[..i + 1][..i] == lines[..i];
  }

  /**
   * The lines one step emits: "[list]" before an item when no list is open,
   * then the item; inside a list, "[/list]\n" for a blank line and nothing
   * for any other; outside a list, the line itself.
   */
  lemma RenderStep(st: Scan, line: string)
    ensures RenderAll(Step(st, line).entries) == RenderAll(st.entries) +
      if IsItem(line) then (if st.inList then [] else ["[list]"]) + ["[*] " + line[2..]]
      else if st.inList then (if IsBlank(line) then ["[/list]\n"] else [])
      else [line]
  {
    if IsItem(line) {
      if st.inList {
        assert st.entries + [] == st.entries;
        RenderAllSnoc(st.entries, Item(line[2..]));
      } else {
        RenderAllSnoc(st.entries, Open);
        RenderAllSnoc(st.entries + [Open], Item(line[2..]));
      }
    } else if st.inList {
      RenderAllSnoc(st.entries, Close(true));
    } else {
      RenderAllSnoc(st.entries, Copied(line));
    }
  }

  /** The closing marker of a list left open comes after everything the lines emitted. */
  lemma RenderEntries(lines: seq<string>)
    ensures RenderAll(Entries(lines))
         == RenderAll(ScanLines(lines).entries) + (if ScanLines(lines).inList then ["[/list]"] else [])
  {
    RenderAllSnoc(ScanLines(lines).entries, Close(false));
  }

  /** `convertLists`, as the loop that pushes onto the output array. */
  method ConvertLists(text: string) returns (r: string)
    ensures r == ListMarkup(text)
  {
    var lines: seq<string> := [];
    var splitLines := SplitLines(text);
    var isInsideList := false;
    ghost var st := Scan(false, []);
    for i := 0 to |splitLines|
      invariant st == ScanLines(splitLines[..i])
      invariant isInsideList == st.inList
      invariant lines == RenderAll(st.entries)
    {
      var line := splitLines[i];
      ScanLinesSnoc(splitLines, i);
      RenderStep(st, line);
      if StartsWith(line, "- ") {
        if !isInsideList {
          isInsideList := true;
          lines := lines + ["[list]"];
        }
        lines := lines + ["[*] " + line[2..]];
      } else if isInsideList {
        if Trim(line) == [] {
          lines := lines + ["[/list]\n"];
          isInsideList := false;
        }
      } else {
        lines := lines + [line];
      }
      st := Step(st, line);
    }
    assert splitLines[..|splitLines|] == splitLines;
    if isInsideList {
      lines := lines + ["[/list]"];
    }
    RenderEntries(splitLines);
    r := Join(lines, "\n");
  }

  // ---------------------------------------------------------------------
  // The flag, stated without the pass.

  /**
   * After `lines`, the pass is inside a list exactly when some item line is
   * followed by no blank line: the last line that is an item or blank is an item.
   */
  predicate InsideAfter(lines: seq<string>) {
    exists j :: 0 <= j < |lines| && IsItem(lines[j]) && forall k :: j < k < |lines| ==> !IsBlank(lines[k])
  }

  /** An item line is never blank. */
  lemma ItemNotBlank(line: string)
    requires IsItem(line)
    ensures !IsBlank(line)
  {
    assert line[..2] == "- ";
    assert line[0] == '-';
  }

  /** One more line: the flag is set after it exactly when it is an item, or it is not blank and the flag was set. */
  lemma InsideAfterSnoc(init: seq<string>, last: string)
    ensures InsideAfter(init + [last]) <==> IsItem(last) || (!IsBlank(last) && InsideAfter(init))
  {
    var lines := init + [last];
    var n := |init|;
    assert lines[n] == last;
    assert forall k :: 0 <= k < n ==> lines[k] == init[k];
    if IsItem(last) {
      assert IsItem(lines[n]);
    } else if !IsBlank(last) && InsideAfter(init) {
      var j :| 0 <= j < n && IsItem(init[j]) && forall k :: j < k < n ==> !IsBlank(init[k]);
      assert IsItem(lines[j]) && forall k :: j < k < |lines| ==> !IsBlank(lines[k]);
    }
    if InsideAfter(lines) && !IsItem(last) {
      var j :| 0 <= j < |lines| && IsItem(lines[j]) && forall k :: j < k < |lines| ==> !IsBlank(lines[k]);
      assert j < n;
      assert !IsBlank(lines[n]);
      assert IsItem(init[j]) && forall k :: j < k < n ==> !IsBlank(init[k]);
    }
  }

  /** The flag of the pass agrees with its description without the pass, in both directions. */
  lemma {:induction false} InListIff(lines: seq<string>)
    ensures ScanLines(lines).inList <==> InsideAfter(lines)
  {
    if lines != [] {
      var n := |lines| - 1;
      InListIff(lines[..n]);
      assert lines == lines[..n] + [lines[n]];
      InsideAfterSnoc(lines[..n], lines[n]);
      if IsItem(lines[n]) {
        ItemNotBlank(lines[n]);
      }
    }
  }

  /**
   * What line `i` contributes, in terms of the lines before it: an item adds
   * "[list]" exactly when no list is open, then its "[*] " line; inside a
   * list a blank line adds the closing marker and any other line adds
   * nothing; outside a list the line itself is copied.
   */
  lemma LineEffect(lines: seq<string>, i: nat)
    requires i < |lines|
    ensures var before := ScanLines(lines[..i]).entries;
            var after := ScanLines(lines[..i + 1]).entries;
            var inside := InsideAfter(lines[..i]);
            && (IsItem(lines[i]) ==> after == before + (if inside then [] else [Open]) + [Item(lines[i][2..])])
            && (!IsItem(lines[i]) && inside && IsBlank(lines[i]) ==> after == before + [Close(true)])
            && (!IsItem(lines[i]) && inside && !IsBlank(lines[i]) ==> after == before)
            && (!IsItem(lines[i]) && !inside ==> after == before + [Copied(lines[i])])
  {
    assert lines[..i + 1][..i] == lines[..i];
    InListIff(lines[..i]);
  }

  // ---------------------------------------------------------------------
  // The markers are balanced.

  /**
   * Reading the entries in order: `Some(open)` when every marker fits
   * (an opening marker only outside a list, items and closing markers only
   * inside, copied lines only outside), with `open` whether a list is still
   * open at the end; `None` when one does not fit.
   */
  function Nesting(es: seq<Entry>): Option<bool> {
    if es == [] then Some(false)
    else match Nesting(es[..|es| - 1])
      case None => None
      case Some(open) =>
        match es[|es| - 1]
        case Open => if open then None else Some(true)
        case Item(_) => if open then Some(true) else None
        case Close(_) => if open then Some(false) else None
        case Copied(_) => if open then None else Some(false)
  }

  /** Every opening marker is immediately followed by an item. */
  predicate OpenBeforeItem(es: seq<Entry>) {
    forall k :: 0 <= k < |es| && es[k] == Open ==> k + 1 < |es| && es[k + 1].Item?
  }

  /**
   * Well-formed output: each "[list]" is followed by its items and exactly
   * one closing marker before the next "[list]" or the end, nothing but
   * items appear inside, and the end-of-text "[/list]" can only be last.
   */
  predicate Balanced(es: seq<Entry>) {
    && Nesting(es) == Some(false)
    && OpenBeforeItem(es)
    && forall k :: 0 <= k < |es| && es[k] == Close(false) ==> k == |es| - 1
  }

  lemma NestingSnoc(es: seq<Entry>, e: Entry)
    ensures Nesting(es + [e]) == match Nesting(es)
      case None => None
      case Some(open) =>
        match e
        case Open => if open then None else Some(true)
        case Item(_) => if open then Some(true) else None
        case Close(_) => if open then Some(false) else None
        case Copied(_) => if open then None else Some(false)
  {
    assert (es + [e])[..|es|] == es;
  }

  /** What the pass keeps true of its state. */
  predicate ScanInvariant(st: Scan) {
    && Nesting(st.entries) == Some(st.inList)
    && OpenBeforeItem(st.entries)
    && (st.inList ==> st.entries != [] && st.entries[|st.entries| - 1].Item?)
    && forall k :: 0 <= k < |st.entries| ==> st.entries[k] != Close(false)
  }

  /** Appending one entry that is not an opening marker keeps the entries' opening markers followed by items. */
  lemma OpenBeforeItemSnoc(es: seq<Entry>, e: Entry)
    requires OpenBeforeItem(es) && e != Open
    ensures OpenBeforeItem(es + [e])
  {
    var r := es + [e];
    forall k | 0 <= k < |r| && r[k] == Open ensures k + 1 < |r| && r[k + 1].Item? {
      assert r[k] == es[k];
    }
  }

  lemma StepItemKeepsInvariant(st: Scan, line: string)
    requires ScanInvariant(st) && IsItem(line)
    ensures ScanInvariant(Step(st, line))
  {
    var es := st.entries;
    var item := Item(line[2..]);
    if st.inList {
      NestingSnoc(es, item);
      OpenBeforeItemSnoc(es, item);
      assert es + [] + [item] == es + [item];
    } else {
      NestingSnoc(es, Open);
      NestingSnoc(es + [Open], item);
      var r := es + [Open] + [item];
      forall k | 0 <= k < |r| && r[k] == Open ensures k + 1 < |r| && r[k + 1].Item? {
        if k < |es| {
          assert r[k] == es[k];
          if k == |es| - 1 {
            assert false;
          }
          assert r[k + 1] == es[k + 1];
        }
      }
    }
  }

  lemma StepOtherKeepsInvariant(st: Scan, line: string)
    requires ScanInvariant(st) && !IsItem(line)
    ensures ScanInvariant(Step(st, line))
  {
    var es := st.entries;
    if st.inList {
      if IsBlank(line) {
        NestingSnoc(es, Close(true));
        OpenBeforeItemSnoc(es, Close(true));
      }
    } else {
      NestingSnoc(es, Copied(line));
      OpenBeforeItemSnoc(es, Copied(line));
    }
  }

  /** The pass keeps the nesting in step with its flag, and never leaves an opening marker last. */
  lemma {:induction false} ScanNested(lines: seq<string>)
    ensures ScanInvariant(ScanLines(lines))
  {
    if lines != [] {
      var init := lines[..|lines| - 1];
      ScanNested(init);
      if IsItem(lines[|lines| - 1]) {
        StepItemKeepsInvariant(ScanLines(init), lines[|lines| - 1]);
      } else {
        StepOtherKeepsInvariant(ScanLines(init), lines[|lines| - 1]);
      }
    }
  }

  /** The output of the pass, final marker included, is balanced. */
  lemma EntriesBalanced(lines: seq<string>)
    ensures Balanced(Entries(lines))
  {
    ScanNested(lines);
    var st := ScanLines(lines);
    if st.inList {
      NestingSnoc(st.entries, Close(false));
      OpenBeforeItemSnoc(st.entries, Close(false));
    }
  }

  /** How many opening markers. */
  function Opens(es: seq<Entry>): nat {
    if es == [] then 0 else Opens(es[..|es| - 1]) + (if es[|es| - 1] == Open then 1 else 0)
  }

  /** How many closing markers, by a blank line or at the end. */
  function Closes(es: seq<Entry>): nat {
    if es == [] then 0 else Closes(es[..|es| - 1]) + (if es[|es| - 1].Close? then 1 else 0)
  }

  /** While the markers fit, the opening markers outnumber the closing ones by the lists still open. */
  lemma {:induction false} NestingCounts(es: seq<Entry>)
    requires Nesting(es).Some?
    ensures Opens(es) == Closes(es) + (if Nesting(es).value then 1 else 0)
  {
    if es != [] {
      NestingCounts(es[..|es| - 1]);
    }
  }

  /** Every "[list]" the pass emits is matched by exactly one closing marker. */
  lemma MarkersMatch(lines: seq<string>)
    ensures Opens(Entries(lines)) == Closes(Entries(lines))
  {
    EntriesBalanced(lines);
    NestingCounts(Entries(lines));
  }

  // ---------------------------------------------------------------------
  // Items and copied lines, in order.

  /** The bodies of the item entries, in order. */
  function ItemBodies(es: seq<Entry>): seq<string> {
    if es == [] then []
    else ItemBodies(es[..|es| - 1]) + (if es[|es| - 1].Item? then [es[|es| - 1].body] else [])
  }

  /** The copied lines, in order. */
  function CopiedLines(es: seq<Entry>): seq<string> {
    if es == [] then []
    else CopiedLines(es[..|es| - 1]) + (if es[|es| - 1].Copied? then [es[|es| - 1].line] else [])
  }

  /** Each item line without its "- ", in order. */
  function ItemsOf(lines: seq<string>): seq<string> {
    if lines == [] then []
    else
      var last := lines[|lines| - 1];
      ItemsOf(lines[..|lines| - 1]) + (if IsItem(last) then [last[2..]] else [])
  }

  /** The non-item lines that come outside any list, in order. */
  function OutsideLines(lines: seq<string>): seq<string> {
    if lines == [] then []
    else
      var init := lines[..|lines| - 1];
      var last := lines[|lines| - 1];
      OutsideLines(init) + (if !IsItem(last) && !InsideAfter(init) then [last] else [])
  }

  /** One more entry adds its body to the item bodies exactly when it is an item. */
  lemma ItemBodiesSnoc(es: seq<Entry>, e: Entry)
    ensures ItemBodies(es + [e]) == ItemBodies(es) + (if e.Item? then [e.body] else [])
  {
    assert (es + [e])[..|es|] == es;
  }

  /** One more entry adds its line to the copied lines exactly when it is a copied line. */
  lemma CopiedLinesSnoc(es: seq<Entry>, e: Entry)
    ensures CopiedLines(es + [e]) == CopiedLines(es) + (if e.Copied? then [e.line] else [])
  {
    assert (es + [e])[..|es|] == es;
  }

  /** What one line adds to the item bodies: the rest of the line after "- ", for an item line only. */
  lemma ItemBodiesStep(st: Scan, line: string)
    ensures ItemBodies(Step(st, line).entries)
         == ItemBodies(st.entries) + (if IsItem(line) then [line[2..]] else [])
  {
    if IsItem(line) {
      if st.inList {
        assert st.entries + [] == st.entries;
        ItemBodiesSnoc(st.entries, Item(line[2..]));
      } else {
        ItemBodiesSnoc(st.entries, Open);
        ItemBodiesSnoc(st.entries + [Open], Item(line[2..]));
      }
    } else if st.inList {
      ItemBodiesSnoc(st.entries, Close(true));
    } else {
      ItemBodiesSnoc(st.entries, Copied(line));
    }
  }

  /** What one line adds to the copied lines: the line itself, for a non-item line outside a list only. */
  lemma CopiedLinesStep(st: Scan, line: string)
    ensures CopiedLines(Step(st, line).entries)
         == CopiedLines(st.entries) + (if !IsItem(line) && !st.inList then [line] else [])
  {
    if IsItem(line) {
      if st.inList {
        assert st.entries + [] == st.entries;
        CopiedLinesSnoc(st.entries, Item(line[2..]));
      } else {
        CopiedLinesSnoc(st.entries, Open);
        CopiedLinesSnoc(st.entries + [Open], Item(line[2..]));
      }
    } else if st.inList {
      CopiedLinesSnoc(st.entries, Close(true));
    } else {
      CopiedLinesSnoc(st.entries, Copied(line));
    }
  }

  /** Every item line yields exactly one "[*] " entry carrying the rest of the line, in input order. */
  lemma {:induction false} ItemsInOrder(lines: seq<string>)
    ensures ItemBodies(ScanLines(lines).entries) == ItemsOf(lines)
  {
    if lines != [] {
      var n := |lines| - 1;
      ItemsInOrder(lines[..n]);
      ItemBodiesStep(ScanLines(lines[..n]), lines[n]);
    }
  }

  /** The closing marker added at the end is not an item, so the full output has the same items. */
  lemma ItemsOfEntries(lines: seq<string>)
    ensures ItemBodies(Entries(lines)) == ItemsOf(lines)
  {
    ItemsInOrder(lines);
    var es := ScanLines(lines).entries;
    if ScanLines(lines).inList {
      ItemBodiesSnoc(es, Close(false));
    }
  }

  /** Non-item lines outside a list are copied unchanged and in order; nothing else is copied. */
  lemma {:induction false} CopiedInOrder(lines: seq<string>)
    ensures CopiedLines(Entries(lines)) == OutsideLines(lines)
  {
    var es := ScanLines(lines).entries;
    if ScanLines(lines).inList {
      CopiedLinesSnoc(es, Close(false));
    }
    CopiedScan(lines);
  }

  /** The copied lines of the pass, before any end-of-text marker. */
  lemma {:induction false} CopiedScan(lines: seq<string>)
    ensures CopiedLines(ScanLines(lines).entries) == OutsideLines(lines)
  {
    if lines != [] {
      var n := |lines| - 1;
      CopiedScan(lines[..n]);
      InListIff(lines[..n]);
      CopiedLinesStep(ScanLines(lines[..n]), lines[n]);
    }
  }

  /** Outside a list, a line that is not an item is copied and the list stays closed. */
  lemma StepCopies(st: Scan, line: string)
    requires !st.inList && !IsItem(line)
    ensures Step(st, line) == Scan(false, st.entries + [Copied(line)])
  {
  }

  /** Text without item lines passes through: every line is copied and no marker is emitted. */
  lemma {:induction false} NoItemsAllCopied(lines: seq<string>)
    requires forall k :: 0 <= k < |lines| ==> !IsItem(lines[k])
    ensures !ScanLines(lines).inList
    ensures RenderAll(ScanLines(lines).entries) == lines
  {
    if lines != [] {
      var n := |lines| - 1;
      var init, last := lines[..n], lines[n];
      assert forall k :: 0 <= k < |init| ==> !IsItem(init[k]) by {
        forall k | 0 <= k < |init| ensures !IsItem(init[k]) {
          assert init[k] == lines[k];
        }
      }
      NoItemsAllCopied(init);
      var st := ScanLines(init);
      assert ScanLines(lines) == Step(st, last);
      StepCopies(st, last);
      RenderAllSnoc(st.entries, Copied(last));
      assert lines == init + [last];
    }
  }
}
