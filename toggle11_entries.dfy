/** Toggle maker v1.1.0: the draw entries (`DrawEntry`) and the parser that
    lists them (`parse_draw`). */
module Toggle11Entries {
  import opened PyText
  import opened IniSections
  import opened Toggle11Blocks

  /** The fields of a draw entry at one moment. */
  datatype EntryView = EntryView(comp: nat, lineIdx: nat, comment: Option<string>, drawline: string,
                                 existing: bool, ifStart: Option<nat>, ifEnd: Option<nat>,
                                 variable: Option<string>, status: Status)

  /** One `drawindexed` line of a component, with the toggle around it, if any.
      `existing` marks a simple (`E`) toggle that the tool may unwrap. */
  class DrawEntry {
    var comp: nat
    var lineIdx: nat
    var comment: Option<string>
    var drawline: string
    var existing: bool
    var ifStart: Option<nat>
    var ifEnd: Option<nat>
    var variable: Option<string>
    var status: Status

    constructor (v: EntryView)
      ensures View() == v
    {
      comp := v.comp;
      lineIdx := v.lineIdx;
      comment := v.comment;
      drawline := v.drawline;
      existing := v.existing;
      ifStart := v.ifStart;
      ifEnd := v.ifEnd;
      variable := v.variable;
      status := v.status;
    }

    function View(): EntryView
      reads this
    {
      EntryView(comp, lineIdx, comment, drawline, existing, ifStart, ifEnd, variable, status)
    }
  }

  function Views(es: seq<DrawEntry>): (r: seq<EntryView>)
    reads es
    ensures |r| == |es| && forall k :: 0 <= k < |es| ==> r[k] == es[k].View()
  {
    seq(|es|, k reads es requires 0 <= k < |es| => es[k].View())
  }

  /** The entry for draw line `i`: its component, the remembered comment, and
      what the detector recorded for it. */
  function EntryOf(lines: seq<string>, ks: seq<LineKind>, toggles: map<nat, Toggle>, i: nat): EntryView
    requires |ks| == |lines| && i < |lines| && CompAt(ks, i).Some?
  {
    var comment := RememberedComment(lines, ks, i);
    if i in toggles then
      var t := toggles[i];
      EntryView(CompAt(ks, i).value, i, comment, lines[i], t.status == Simple,
                Some(t.ifStart), Some(t.ifEnd), Some(t.variable), t.status)
    else
      EntryView(CompAt(ks, i).value, i, comment, lines[i], false, None, None, None, NoToggle)
  }

  /** The entries among the first `n` lines, in line order. */
  function Entries(lines: seq<string>, ks: seq<LineKind>, toggles: map<nat, Toggle>, n: nat): seq<EntryView>
    requires |ks| == |lines| && n <= |lines|
  {
    if n == 0 then []
    else
      Entries(lines, ks, toggles, n - 1) +
      (if IsEntry(ks, n - 1) then [EntryOf(lines, ks, toggles, n - 1)] else [])
  }

  /** What `parse_draw` returns for `lines`. */
  function ParseSpec(lines: seq<string>, keyVars: set<string>): seq<EntryView> {
    Entries(lines, Kinds(lines), Detect(BlockScan(lines), keyVars, 0, map[]), |lines|)
  }

  /** The walk of `parse_draw` over the classified lines. */
  method CollectEntries(lines: seq<string>, ks: seq<LineKind>, toggles: map<nat, Toggle>)
    returns (res: seq<DrawEntry>)
    requires |ks| == |lines|
    ensures Views(res) == Entries(lines, ks, toggles, |lines|)
    ensures forall k :: 0 <= k < |res| ==> fresh(res[k])
    ensures forall k, l :: 0 <= k < l < |res| ==> res[k] != res[l]
  {
    res := [];
    var comp: Option<nat> := None;
    var lastComment: Option<string> := None;
    var i := 0;
    while i < |lines|
      invariant 0 <= i <= |lines|
      invariant comp == CompAt(ks, i)
      invariant lastComment == RememberedComment(lines, ks, i)
      invariant Views(res) == Entries(lines, ks, toggles, i)
      invariant forall k :: 0 <= k < |res| ==> fresh(res[k])
      invariant forall k, l :: 0 <= k < l < |res| ==> res[k] != res[l]
    {
      NoCompNoComment(ks, i);
      match ks[i] {
        case CompHead(n) =>
          comp := Some(n);
          lastComment := None;
        case Header =>
          if comp.Some? {
            comp := None;
            lastComment := None;
          }
        case Comment =>
          if comp.Some? {
            lastComment := Some(lines[i]);
          }
        case Draw =>
          if comp.Some? {
            var e := new DrawEntry(EntryOf(lines, ks, toggles, i));
            res := res + [e];
          }
        case Other =>
      }
      i := i + 1;
    }
  }

  /** `parse_draw`: the guard spans are detected, each line is classified
      (`Kinds`), and the classified lines are walked. */
  method ParseDraw(lines: seq<string>, keyVars: set<string>) returns (res: seq<DrawEntry>)
    ensures Views(res) == ParseSpec(lines, keyVars)
    ensures forall k :: 0 <= k < |res| ==> fresh(res[k])
    ensures forall k, l :: 0 <= k < l < |res| ==> res[k] != res[l]
  {
    var toggles := DetectToggleBlocks(lines, keyVars);
    var ks := Kinds(lines);
    res := CollectEntries(lines, ks, toggles);
  }

  // ---------------------------------------------------------------------
  // What the entries are.

  /** The entries are exactly the entry lines, in order. */
  lemma {:induction false} EntriesAreIndices(lines: seq<string>, ks: seq<LineKind>, toggles: map<nat, Toggle>, n: nat)
    requires |ks| == |lines| && n <= |lines|
    ensures var es := Entries(lines, ks, toggles, n);
            |es| == |EntryIndices(ks, n)| &&
            forall k :: 0 <= k < |es| ==>
              es[k].lineIdx == EntryIndices(ks, n)[k] &&
              es[k].lineIdx < |lines| && CompAt(ks, es[k].lineIdx).Some? &&
              es[k] == EntryOf(lines, ks, toggles, es[k].lineIdx)
    decreases n
  {
    if n > 0 {
      EntriesAreIndices(lines, ks, toggles, n - 1);
    }
  }

  /** `parse_draw` lists the entries in strictly increasing line order, and
      lists a line exactly when it is a draw line (not a comment, not a
      header) inside a component section. */
  lemma ParseOrdered(lines: seq<string>, keyVars: set<string>)
    ensures var es := ParseSpec(lines, keyVars);
            forall k, l :: 0 <= k < l < |es| ==> es[k].lineIdx < es[l].lineIdx
    ensures var es := ParseSpec(lines, keyVars);
            var ks := Kinds(lines);
            forall i :: 0 <= i < |lines| ==>
              ((exists k :: 0 <= k < |es| && es[k].lineIdx == i) <==> IsEntry(ks, i))
  {
    var ks := Kinds(lines);
    var tg := Detect(BlockScan(lines), keyVars, 0, map[]);
    EntriesAreIndices(lines, ks, tg, |lines|);
    EntryIndicesIncreasing(ks, |lines|);
    EntryIndicesExact(ks, |lines|);
    var es := ParseSpec(lines, keyVars);
    var ix := EntryIndices(ks, |lines|);
    forall i | 0 <= i < |lines| && IsEntry(ks, i)
      ensures exists k :: 0 <= k < |es| && es[k].lineIdx == i
    {
      assert i in ix;
      var k :| 0 <= k < |ix| && ix[k] == i;
      assert es[k].lineIdx == i;
    }
  }

  /** Each entry carries its draw line, the number of the component header
      that opened its section, and the latest comment line after that header
      (none when there is none). */
  lemma ParseEntryFields(lines: seq<string>, keyVars: set<string>, k: nat)
    requires k < |ParseSpec(lines, keyVars)|
    ensures var e := ParseSpec(lines, keyVars)[k];
            var ks := Kinds(lines);
            e.lineIdx < |lines| && IsEntry(ks, e.lineIdx) && EntryFields(lines, ks, e)
  {
    var ks := Kinds(lines);
    var tg := Detect(BlockScan(lines), keyVars, 0, map[]);
    EntriesAreIndices(lines, ks, tg, |lines|);
    EntryIndicesExact(ks, |lines|);
    var e := ParseSpec(lines, keyVars)[k];
    assert e.lineIdx in EntryIndices(ks, |lines|);
    EntryOfFields(lines, ks, tg, e.lineIdx);
  }

  /** The draw line, the component of the header that opened the section,
      and the latest comment line after that header. */
  predicate EntryFields(lines: seq<string>, ks: seq<LineKind>, e: EntryView)
    requires |ks| == |lines| && e.lineIdx < |lines|
  {
    e.drawline == lines[e.lineIdx] && ReadsAsEntry(lines, ks, e.lineIdx, e.comp, e.comment)
  }

  lemma EntryOfFields(lines: seq<string>, ks: seq<LineKind>, toggles: map<nat, Toggle>, i: nat)
    requires |ks| == |lines| && i < |lines| && IsEntry(ks, i)
    ensures EntryFields(lines, ks, EntryOf(lines, ks, toggles, i))
  {
    EntryRead(lines, ks, i);
  }

  /** `existing` holds exactly for simple toggles; an entry with a toggle
      lies strictly inside a sound guard span that the detector recorded for
      its line, and an entry without one has no span fields. */
  lemma ParseEntryToggle(lines: seq<string>, keyVars: set<string>, k: nat)
    requires k < |ParseSpec(lines, keyVars)|
    ensures var e := ParseSpec(lines, keyVars)[k];
            var bl := BlockScan(lines);
            var tg := Detect(bl, keyVars, 0, map[]);
            (e.existing <==> e.status == Simple) &&
            (e.status == NoToggle <==> e.lineIdx !in tg) &&
            (e.status == NoToggle ==> e.ifStart.None? && e.ifEnd.None? && e.variable.None?) &&
            (e.status != NoToggle ==>
               e.ifStart.Some? && e.ifEnd.Some? && e.variable.Some? &&
               Sound(bl, keyVars, e.lineIdx, Toggle(e.variable.value, e.ifStart.value, e.ifEnd.value, e.status)))
  {
    var ks := Kinds(lines);
    var bl := BlockScan(lines);
    var tg := Detect(bl, keyVars, 0, map[]);
    EntriesAreIndices(lines, ks, tg, |lines|);
    DetectSound(bl, keyVars, 0, map[]);
  }
}
