/** Toggle maker v1.0.0: the draw-entry parser (`parse_draw`), the spec queue
    of `add_toggle`, and `apply_all`, which wraps the draw lines by their raw
    line index and then adds the declarations and an unconditional block of
    key sections. */
module Toggle10 {
  import opened PyText
  import opened IniPatterns
  import opened IniSections
  import opened GuardBlocks
  import opened Declarations
  import opened StableSort

  /** One `drawindexed` line of a component section. */
  datatype DrawEntry = DrawEntry(comp: nat, lineIdx: nat, comment: Option<string>, drawline: string)

  /** A pending toggle: guard the line at `lineIdx` on `$variable`, cycled by
      `key`; `comment` is the comment line remembered for the entry. */
  datatype ToggleSpec = ToggleSpec(variable: string, key: string, lineIdx: nat, comment: Option<string>)

  // ---------------------------------------------------------------------
  // `parse_draw`

  /** The entry for draw line `i`. */
  function EntryAt(lines: seq<string>, ks: seq<LineKind>, i: nat): DrawEntry
    requires |ks| == |lines| && i < |lines| && CompAt(ks, i).Some?
  {
    DrawEntry(CompAt(ks, i).value, i, RememberedComment(lines, ks, i), lines[i])
  }

  /** The entries among the first `n` lines, in line order. */
  function EntriesTo(lines: seq<string>, ks: seq<LineKind>, n: nat): seq<DrawEntry>
    requires |ks| == |lines| && n <= |lines|
  {
    if n == 0 then []
    else EntriesTo(lines, ks, n - 1) + (if IsEntry(ks, n - 1) then [EntryAt(lines, ks, n - 1)] else [])
  }

  /** What `parse_draw` returns for `lines`. */
  function ParseSpec(lines: seq<string>): seq<DrawEntry> {
    EntriesTo(lines, Kinds(lines), |lines|)
  }

  /** `parse_draw`: the lines are classified, then walked once
      (`CollectEntries`). */
  method ParseDraw(lines: seq<string>) returns (res: seq<DrawEntry>)
    ensures res == ParseSpec(lines)
  {
    var ks := Kinds(lines);
    res := CollectEntries(lines, ks);
  }

  /** The walk over the classified lines, which tracks the open component
      and the latest comment line. */
  method CollectEntries(lines: seq<string>, ks: seq<LineKind>) returns (res: seq<DrawEntry>)
    requires |ks| == |lines|
    ensures res == EntriesTo(lines, ks, |lines|)
  {
    res := [];
    var comp: Option<nat> := None;
    var lastComment: Option<string> := None;
    var i := 0;
    while i < |lines|
      invariant 0 <= i <= |lines|
      invariant comp == CompAt(ks, i)
      invariant lastComment == RememberedComment(lines, ks, i)
      invariant res == EntriesTo(lines, ks, i)
    {
      NoCompNoComment(ks, i);
      match ks[i] {
        case CompHead(n) =>
          comp := Some(n);
          lastComment := None;
        case Header =>
          if comp.Some? {
            comp := None;
            lastComment := None;
          }
        case Comment =>
          if comp.Some? {
            lastComment := Some(lines[i]);
          }
        case Draw =>
          if comp.Some? {
            res := res + [DrawEntry(comp.value, i, lastComment, lines[i])];
          }
        case Other =>
      }
      i := i + 1;
    }
  }

  /** The entries are exactly the entry lines, in order. */
  lemma {:induction false} EntriesToIndices(lines: seq<string>, ks: seq<LineKind>, n: nat)
    requires |ks| == |lines| && n <= |lines|
    ensures var es := EntriesTo(lines, ks, n);
            |es| == |EntryIndices(ks, n)| &&
            forall k :: 0 <= k < |es| ==>
              es[k].lineIdx == EntryIndices(ks, n)[k] &&
              es[k].lineIdx < |lines| && IsEntry(ks, es[k].lineIdx) &&
              es[k] == EntryAt(lines, ks, es[k].lineIdx)
    decreases n
  {
    if n > 0 {
      EntriesToIndices(lines, ks, n - 1);
    }
  }

  /** `parse_draw` lists the entries in strictly increasing line order, and
      lists a line exactly when it is a draw line (not a comment, not a
      header) inside a component section. */
  lemma ParseOrdered(lines: seq<string>)
    ensures var es := ParseSpec(lines);
            forall k, l :: 0 <= k < l < |es| ==> es[k].lineIdx < es[l].lineIdx
    ensures var es := ParseSpec(lines);
            var ks := Kinds(lines);
            forall i :: 0 <= i < |lines| ==>
              ((exists k :: 0 <= k < |es| && es[k].lineIdx == i) <==> IsEntry(ks, i))
  {
    var ks := Kinds(lines);
    EntriesToIndices(lines, ks, |lines|);
    EntryIndicesIncreasing(ks, |lines|);
    EntryIndicesExact(ks, |lines|);
    var es := ParseSpec(lines);
    var ix := EntryIndices(ks, |lines|);
    forall i | 0 <= i < |lines| && IsEntry(ks, i)
      ensures exists k :: 0 <= k < |es| && es[k].lineIdx == i
    {
      assert i in ix;
      var k :| 0 <= k < |ix| && ix[k] == i;
      assert es[k].lineIdx == i;
    }
  }

  /** Each entry carries its draw line, the number of the component header
      that opened its section, and the latest comment line after that header
      (none when there is none). */
  lemma ParseEntryFields(lines: seq<string>, k: nat)
    requires k < |ParseSpec(lines)|
    ensures var e := ParseSpec(lines)[k];
            var ks := Kinds(lines);
            e.lineIdx < |lines| && IsEntry(ks, e.lineIdx) && e.drawline == lines[e.lineIdx] &&
            ReadsAsEntry(lines, ks, e.lineIdx, e.comp, e.comment)
  {
    var ks := Kinds(lines);
    EntriesToIndices(lines, ks, |lines|);
    EntryRead(lines, ks, ParseSpec(lines)[k].lineIdx);
  }

  // ---------------------------------------------------------------------
  // The spec queue of `add_toggle`.

  /** At most one spec per line. */
  predicate OnePerLine(specs: seq<ToggleSpec>) {
    forall i, j :: 0 <= i < j < |specs| ==> specs[i].lineIdx != specs[j].lineIdx
  }

  /** `[s for s in specs if s.line_idx != idx]`. */
  function OtherLines(specs: seq<ToggleSpec>, idx: nat): (r: seq<ToggleSpec>)
    ensures forall s :: s in r <==> s in specs && s.lineIdx != idx
    decreases |specs|
  {
    if specs == [] then []
    else if specs[0].lineIdx != idx then [specs[0]] + OtherLines(specs[1..], idx)
    else OtherLines(specs[1..], idx)
  }

  /** Dropping the specs of one line keeps at most one spec per line. */
  lemma {:induction false} OtherLinesOnePerLine(specs: seq<ToggleSpec>, idx: nat)
    requires OnePerLine(specs)
    ensures OnePerLine(OtherLines(specs, idx))
    decreases |specs|
  {
    if specs != [] {
      var tail := specs[1..];
      forall i, j | 0 <= i < j < |tail| ensures tail[i].lineIdx != tail[j].lineIdx {
        assert tail[i] == specs[i + 1] && tail[j] == specs[j + 1];
      }
      OtherLinesOnePerLine(tail, idx);
      var rest := OtherLines(tail, idx);
      if specs[0].lineIdx != idx {
        forall m | 0 <= m < |rest| ensures rest[m].lineIdx != specs[0].lineIdx {
          assert rest[m] in rest;
          var n :| 0 <= n < |tail| && tail[n] == rest[m];
          assert specs[n + 1] == rest[m];
        }
        var r := [specs[0]] + rest;
        forall i, j | 0 <= i < j < |r| ensures r[i].lineIdx != r[j].lineIdx {
          assert r[j] == rest[j - 1];
          if i > 0 {
            assert r[i] == rest[i - 1];
          }
        }
      }
    }
  }

  function SpecFor(e: DrawEntry, v: string, key: string): ToggleSpec {
    ToggleSpec(v, key, e.lineIdx, e.comment)
  }

  /** One selected entry queued: an older spec for its line is dropped and the
      new one appended. */
  function Requeue(specs: seq<ToggleSpec>, e: DrawEntry, v: string, key: string): seq<ToggleSpec> {
    OtherLines(specs, e.lineIdx) + [SpecFor(e, v, key)]
  }

  /** The loop of `add_toggle` over the selected entries. */
  function QueueAll(specs: seq<ToggleSpec>, es: seq<DrawEntry>, sel: seq<nat>, v: string, key: string): seq<ToggleSpec>
    requires Selects(sel, |es|)
    decreases |sel|
  {
    if sel == [] then specs
    else
      var n := |sel| - 1;
      assert Selects(sel[..n], |es|) by {
        forall k | 0 <= k < n ensures sel[..n][k] < |es| {
          assert sel[..n][k] == sel[k];
        }
      }
      Requeue(QueueAll(specs, es, sel[..n], v, key), es[sel[n]], v, key)
  }

  /** `add_toggle` with the answers to its two dialogs (`None` for a
      cancelled one): nothing happens without a selection or without both
      answers; otherwise the stripped answers are queued for each selected
      entry. */
  function AddSpecs(specs: seq<ToggleSpec>, es: seq<DrawEntry>, sel: seq<nat>,
                    varAnswer: Option<string>, keyAnswer: Option<string>): seq<ToggleSpec>
    requires Selects(sel, |es|)
  {
    if sel == [] || !Answered(varAnswer) || !Answered(keyAnswer) then specs
    else QueueAll(specs, es, sel, Strip(varAnswer.value), Strip(keyAnswer.value))
  }

  /** Some selected entry is on line `idx`. */
  predicate Selected(es: seq<DrawEntry>, sel: seq<nat>, idx: nat)
    requires Selects(sel, |es|)
  {
    exists k :: 0 <= k < |sel| && es[sel[k]].lineIdx == idx
  }

  /** `s` is the spec made for some selected entry. */
  predicate MadeFor(es: seq<DrawEntry>, sel: seq<nat>, s: ToggleSpec, v: string, key: string)
    requires Selects(sel, |es|)
  {
    exists k :: 0 <= k < |sel| && s == SpecFor(es[sel[k]], v, key)
  }

  /** `r` holds a spec for line `idx` with variable `v` and key `key`. */
  predicate Covers(r: seq<ToggleSpec>, idx: nat, v: string, key: string) {
    exists s :: s in r && s.lineIdx == idx && s.variable == v && s.key == key
  }

  /** Requeueing keeps one spec per line. */
  lemma RequeueOnePerLine(specs: seq<ToggleSpec>, e: DrawEntry, v: string, key: string)
    requires OnePerLine(specs)
    ensures OnePerLine(Requeue(specs, e, v, key))
  {
    var o := OtherLines(specs, e.lineIdx);
    OtherLinesOnePerLine(specs, e.lineIdx);
    var r := o + [SpecFor(e, v, key)];
    forall i, j | 0 <= i < j < |r| ensures r[i].lineIdx != r[j].lineIdx {
      assert r[i] == o[i];
      if j < |o| {
        assert r[j] == o[j];
      } else {
        assert o[i] in o;
      }
    }
  }

  /** The selection without its last position, and what the queue was then. */
  lemma QueueAllLast(specs: seq<ToggleSpec>, es: seq<DrawEntry>, sel: seq<nat>, v: string, key: string)
    requires Selects(sel, |es|) && sel != []
    ensures Selects(sel[..|sel| - 1], |es|)
    ensures QueueAll(specs, es, sel, v, key) ==
            Requeue(QueueAll(specs, es, sel[..|sel| - 1], v, key), es[sel[|sel| - 1]], v, key)
  {
    var n := |sel| - 1;
    forall k | 0 <= k < n ensures sel[..n][k] < |es| {
      assert sel[..n][k] == sel[k];
    }
  }

  /** A line is selected by the whole selection exactly when it is selected
      by all but the last position or by the last one. */
  lemma SelectedSnoc(es: seq<DrawEntry>, sel: seq<nat>, idx: nat)
    requires Selects(sel, |es|) && sel != [] && Selects(sel[..|sel| - 1], |es|)
    ensures Selected(es, sel, idx) <==> Selected(es, sel[..|sel| - 1], idx) || es[sel[|sel| - 1]].lineIdx == idx
  {
    var n := |sel| - 1;
    var pre := sel[..n];
    if Selected(es, pre, idx) {
      var k :| 0 <= k < n && es[pre[k]].lineIdx == idx;
      assert pre[k] == sel[k];
    }
    if Selected(es, sel, idx) && es[sel[n]].lineIdx != idx {
      var k :| 0 <= k < |sel| && es[sel[k]].lineIdx == idx;
      assert pre[k] == sel[k];
    }
  }

  /** Specs made for all but the last position are made for the whole
      selection. */
  lemma MadeForSnoc(es: seq<DrawEntry>, sel: seq<nat>, s: ToggleSpec, v: string, key: string)
    requires Selects(sel, |es|) && sel != [] && Selects(sel[..|sel| - 1], |es|)
    requires MadeFor(es, sel[..|sel| - 1], s, v, key) || s == SpecFor(es[sel[|sel| - 1]], v, key)
    ensures MadeFor(es, sel, s, v, key)
  {
    var n := |sel| - 1;
    if s != SpecFor(es[sel[n]], v, key) {
      var k :| 0 <= k < n && s == SpecFor(es[sel[..n][k]], v, key);
      assert sel[..n][k] == sel[k];
    }
  }

  /** Queueing keeps one spec per line. */
  lemma {:induction false} QueueAllOnePerLine(specs: seq<ToggleSpec>, es: seq<DrawEntry>, sel: seq<nat>, v: string, key: string)
    requires Selects(sel, |es|) && OnePerLine(specs)
    ensures OnePerLine(QueueAll(specs, es, sel, v, key))
    decreases |sel|
  {
    if sel != [] {
      QueueAllLast(specs, es, sel, v, key);
      QueueAllOnePerLine(specs, es, sel[..|sel| - 1], v, key);
      RequeueOnePerLine(QueueAll(specs, es, sel[..|sel| - 1], v, key), es[sel[|sel| - 1]], v, key);
    }
  }

  /** After queueing, every selected entry's line has a spec with the given
      answers. */
  lemma {:induction false} QueueAllCovers(specs: seq<ToggleSpec>, es: seq<DrawEntry>, sel: seq<nat>, v: string, key: string)
    requires Selects(sel, |es|)
    ensures forall k :: 0 <= k < |sel| ==> Covers(QueueAll(specs, es, sel, v, key), es[sel[k]].lineIdx, v, key)
    decreases |sel|
  {
    if sel != [] {
      var n := |sel| - 1;
      var pre := sel[..n];
      QueueAllLast(specs, es, sel, v, key);
      QueueAllCovers(specs, es, pre, v, key);
      CoversStep(QueueAll(specs, es, pre, v, key), es, sel, pre, v, key);
    }
  }

  lemma CoversStep(q: seq<ToggleSpec>, es: seq<DrawEntry>, sel: seq<nat>, pre: seq<nat>, v: string, key: string)
    requires Selects(sel, |es|) && sel != [] && pre == sel[..|sel| - 1] && Selects(pre, |es|)
    requires forall k :: 0 <= k < |pre| ==> Covers(q, es[pre[k]].lineIdx, v, key)
    ensures forall k :: 0 <= k < |sel| ==> Covers(Requeue(q, es[sel[|sel| - 1]], v, key), es[sel[k]].lineIdx, v, key)
  {
    var n := |sel| - 1;
    var e := es[sel[n]];
    var r := Requeue(q, e, v, key);
    assert SpecFor(e, v, key) in r;
    forall k | 0 <= k < |sel| ensures Covers(r, es[sel[k]].lineIdx, v, key) {
      if k < n && es[sel[k]].lineIdx != e.lineIdx {
        assert pre[k] == sel[k];
        var s :| s in q && s.lineIdx == es[sel[k]].lineIdx && s.variable == v && s.key == key;
        assert s in OtherLines(q, e.lineIdx);
      }
    }
  }

  /** A spec for a line that was not selected stays queued. */
  lemma {:induction false} QueueAllKeeps(specs: seq<ToggleSpec>, es: seq<DrawEntry>, sel: seq<nat>, v: string, key: string)
    requires Selects(sel, |es|)
    ensures forall s :: s in specs && !Selected(es, sel, s.lineIdx) ==> s in QueueAll(specs, es, sel, v, key)
    decreases |sel|
  {
    if sel != [] {
      var n := |sel| - 1;
      var pre := sel[..n];
      QueueAllLast(specs, es, sel, v, key);
      QueueAllKeeps(specs, es, pre, v, key);
      forall s | s in specs && !Selected(es, sel, s.lineIdx) ensures s in QueueAll(specs, es, sel, v, key) {
        SelectedSnoc(es, sel, s.lineIdx);
        assert s in OtherLines(QueueAll(specs, es, pre, v, key), es[sel[n]].lineIdx);
      }
    }
  }

  /** Every queued spec is an old one for a line that was not selected, or
      the spec made for a selected entry. */
  lemma {:induction false} QueueAllOrigin(specs: seq<ToggleSpec>, es: seq<DrawEntry>, sel: seq<nat>, v: string, key: string)
    requires Selects(sel, |es|)
    ensures forall s :: s in QueueAll(specs, es, sel, v, key) ==>
              (s in specs && !Selected(es, sel, s.lineIdx)) || MadeFor(es, sel, s, v, key)
    decreases |sel|
  {
    if sel != [] {
      var n := |sel| - 1;
      var pre := sel[..n];
      QueueAllLast(specs, es, sel, v, key);
      QueueAllOrigin(specs, es, pre, v, key);
      var q := QueueAll(specs, es, pre, v, key);
      forall s | s in QueueAll(specs, es, sel, v, key)
        ensures (s in specs && !Selected(es, sel, s.lineIdx)) || MadeFor(es, sel, s, v, key)
      {
        OriginStep(specs, q, es, sel, s, v, key);
      }
    }
  }

  lemma OriginStep(specs: seq<ToggleSpec>, q: seq<ToggleSpec>, es: seq<DrawEntry>, sel: seq<nat>, s: ToggleSpec, v: string, key: string)
    requires Selects(sel, |es|) && sel != [] && Selects(sel[..|sel| - 1], |es|)
    requires forall x :: x in q ==> (x in specs && !Selected(es, sel[..|sel| - 1], x.lineIdx)) || MadeFor(es, sel[..|sel| - 1], x, v, key)
    requires s in Requeue(q, es[sel[|sel| - 1]], v, key)
    ensures (s in specs && !Selected(es, sel, s.lineIdx)) || MadeFor(es, sel, s, v, key)
  {
    var n := |sel| - 1;
    var e := es[sel[n]];
    SelectedSnoc(es, sel, s.lineIdx);
    if s == SpecFor(e, v, key) {
      MadeForSnoc(es, sel, s, v, key);
    } else {
      assert s in OtherLines(q, e.lineIdx);
      if MadeFor(es, sel[..n], s, v, key) {
        MadeForSnoc(es, sel, s, v, key);
      }
    }
  }

  /** After queueing: one spec per line stays one spec per line, every
      selected line is covered, specs for unselected lines are kept, and
      nothing else is queued. */
  lemma QueueAllSpec(specs: seq<ToggleSpec>, es: seq<DrawEntry>, sel: seq<nat>, v: string, key: string)
    requires Selects(sel, |es|)
    ensures var r := QueueAll(specs, es, sel, v, key);
            (OnePerLine(specs) ==> OnePerLine(r)) &&
            (forall k :: 0 <= k < |sel| ==> Covers(r, es[sel[k]].lineIdx, v, key)) &&
            (forall s :: s in specs && !Selected(es, sel, s.lineIdx) ==> s in r) &&
            (forall s :: s in r ==> (s in specs && !Selected(es, sel, s.lineIdx)) || MadeFor(es, sel, s, v, key))
  {
    if OnePerLine(specs) {
      QueueAllOnePerLine(specs, es, sel, v, key);
    }
    QueueAllCovers(specs, es, sel, v, key);
    QueueAllKeeps(specs, es, sel, v, key);
    QueueAllOrigin(specs, es, sel, v, key);
  }

  // ---------------------------------------------------------------------
  // `wrap_draw`

  function LineKey(s: ToggleSpec): int {
    s.lineIdx
  }

  /** The comment that moves into the guard with the line at `idx`: the
      nearest non-blank line above it, when the spec has a comment and that
      line strips to the same text. The block is written from the spec's
      comment. */
  function MovedFor(lines: seq<string>, s: ToggleSpec, idx: nat): (m: Option<(nat, string)>)
    requires idx < |lines|
    ensures m.Some? ==> m.value.0 < idx
  {
    if !Answered(s.comment) then None
    else
      var j := NonBlankFrom(lines, idx as int - 1);
      if j.Some? && Strip(lines[j.value]) == Strip(s.comment.value) then Some((j.value, s.comment.value))
      else None
  }

  /** One spec: an index past the end is skipped, any other is wrapped. */
  function WrapOne(lines: seq<string>, s: ToggleSpec): seq<string> {
    if s.lineIdx >= |lines| then lines
    else Rewrap(lines, s.lineIdx, s.variable, MovedFor(lines, s, s.lineIdx))
  }

  /** The specs, applied one after the other. */
  function WrapAll(lines: seq<string>, order: seq<ToggleSpec>): seq<string>
    decreases |order|
  {
    if order == [] then lines else WrapAll(WrapOne(lines, order[0]), order[1..])
  }

  /** `wrap_draw`: the specs in descending line index (stable), each wrapped
      in turn on the list as the earlier ones left it. */
  method WrapDraw(lines: seq<string>, specs: seq<ToggleSpec>) returns (out: seq<string>)
    ensures out == WrapAll(lines, SortDesc(specs, LineKey))
  {
    var order := SortDesc(specs, LineKey);
    out := lines;
    var k := 0;
    while k < |order|
      invariant 0 <= k <= |order|
      invariant WrapAll(out, order[k..]) == WrapAll(lines, order)
    {
      var next := WrapSpec(out, order[k]);
      WrapAllStep(out, order, k, next);
      out := next;
      k := k + 1;
    }
    assert order[|order|..] == [];
  }

  lemma WrapAllStep(lines: seq<string>, order: seq<ToggleSpec>, k: nat, next: seq<string>)
    requires k < |order| && next == WrapOne(lines, order[k])
    ensures WrapAll(lines, order[k..]) == WrapAll(next, order[k + 1..])
  {
    assert order[k..][0] == order[k] && order[k..][1..] == order[k + 1..];
  }

  /** The body of the loop for one spec. */
  method WrapSpec(lines: seq<string>, s: ToggleSpec) returns (out: seq<string>)
    ensures out == WrapOne(lines, s)
  {
    out := lines;
    var idx := s.lineIdx;
    if idx >= |lines| {
      return;
    }
    var moved := FindMovedComment(lines, s, idx);
    out := RewrapLines(lines, idx, s.variable, moved);
  }

  /** The walk up over blank lines to the line that must match the spec's
      comment. */
  method FindMovedComment(lines: seq<string>, s: ToggleSpec, idx: nat) returns (moved: Option<(nat, string)>)
    requires idx < |lines|
    ensures moved == MovedFor(lines, s, idx)
  {
    moved := None;
    if s.comment.Some? && s.comment.value != "" {
      var commentText := Strip(s.comment.value);
      var j: int := idx as int - 1;
      while j >= 0 && Strip(lines[j]) == []
        invariant -1 <= j < idx
        invariant NonBlankFrom(lines, j) == NonBlankFrom(lines, idx as int - 1)
      {
        j := j - 1;
      }
      if j >= 0 && Strip(lines[j]) == commentText {
        moved := Some((j as nat, s.comment.value));
      }
    }
  }

  // ---------------------------------------------------------------------
  // Properties of the wrap pass.

  /** A comment moves exactly when the spec has one and the nearest non-blank
      line above the draw line strips to it; only blank lines lie between. */
  lemma MovedForSpec(lines: seq<string>, s: ToggleSpec, idx: nat)
    requires idx < |lines|
    ensures var m := MovedFor(lines, s, idx);
            (m.Some? ==> Answered(s.comment) && m.value.1 == s.comment.value &&
                         Strip(lines[m.value.0]) == Strip(s.comment.value) &&
                         forall q :: m.value.0 < q < idx ==> Strip(lines[q]) == []) &&
            (m.None? && Answered(s.comment) ==>
               forall j :: 0 <= j < idx && Strip(lines[j]) == Strip(s.comment.value) && Strip(lines[j]) != [] ==>
                 exists q :: j < q < idx && Strip(lines[q]) != [])
  {
    NonBlankFromSpec(lines, idx as int - 1);
    var r := NonBlankFrom(lines, idx as int - 1);
    if MovedFor(lines, s, idx).None? && Answered(s.comment) {
      forall j | 0 <= j < idx && Strip(lines[j]) == Strip(s.comment.value) && Strip(lines[j]) != []
        ensures exists q :: j < q < idx && Strip(lines[q]) != []
      {
        assert r.Some?;
        assert r.value != j;
        assert j < r.value;
      }
    }
  }

  /** A spec leaves the lines as they are exactly when its index is past the
      end. Otherwise the list grows by two: earlier lines stay, the block
      (keeping the draw line's indentation) follows at the moved comment or
      the draw line, then the rest in order. */
  lemma WrapOneShape(lines: seq<string>, s: ToggleSpec)
    ensures WrapOne(lines, s) == lines <==> s.lineIdx >= |lines|
    ensures s.lineIdx < |lines| ==>
              var idx := s.lineIdx;
              var moved := MovedFor(lines, s, idx);
              var at := WrapAt(idx, moved);
              var block := WrapBlock(lines[idx], s.variable, if moved.Some? then Some(moved.value.1) else None);
              var r := WrapOne(lines, s);
              |r| == |lines| + 2 &&
              r[..at] == lines[..at] &&
              r[at..at + |block|] == block &&
              r[at + |block|..] == (if moved.Some? then lines[at + 1..idx] else []) + lines[idx + 1..]
  {
    if s.lineIdx < |lines| {
      RewrapShape(lines, s.lineIdx, s.variable, MovedFor(lines, s, s.lineIdx));
    }
  }

  /** `wrap_draw` visits the specs from the largest line index down, and specs
      with equal indices in the order they were queued. */
  lemma WrapDrawOrder(specs: seq<ToggleSpec>)
    ensures IsDescending(SortDesc(specs, LineKey), LineKey)
    ensures multiset(SortDesc(specs, LineKey)) == multiset(specs)
    ensures forall k :: WithKey(SortDesc(specs, LineKey), LineKey, k) == WithKey(specs, LineKey, k)
  {
    SortDescSorted(specs, LineKey);
    forall k ensures WithKey(SortDesc(specs, LineKey), LineKey, k) == WithKey(specs, LineKey, k) {
      SortDescStable(specs, LineKey, k);
    }
  }

  /** Specs whose indices are all in range each add two lines. */
  lemma {:induction false} WrapAllGrows(lines: seq<string>, order: seq<ToggleSpec>)
    requires forall k :: 0 <= k < |order| ==> order[k].lineIdx < |lines|
    ensures |WrapAll(lines, order)| == |lines| + 2 * |order|
    decreases |order|
  {
    if order != [] {
      WrapOneShape(lines, order[0]);
      WrapAllGrows(WrapOne(lines, order[0]), order[1..]);
    }
  }

  /** A spec made for an entry of `lines`: its index is a draw line there, and
      its comment, if any, is a comment line. */
  predicate Target(lines: seq<string>, s: ToggleSpec) {
    s.lineIdx < |lines| && IsDrawLine(lines[s.lineIdx]) && (s.comment.Some? ==> IsComment(s.comment.value))
  }

  /** Such specs, strictly from the bottom of the file up. */
  predicate Targets(lines: seq<string>, order: seq<ToggleSpec>) {
    (forall k :: 0 <= k < |order| ==> Target(lines, order[k])) &&
    forall k, l :: 0 <= k < l < |order| ==> order[k].lineIdx > order[l].lineIdx
  }

  /** Wrapping a draw line leaves every line up to an earlier draw line as it
      was: a moved comment lies below any earlier draw line. */
  lemma WrapOneKeepsAbove(lines: seq<string>, s: ToggleSpec, p: nat)
    requires s.lineIdx < |lines| && (s.comment.Some? ==> IsComment(s.comment.value))
    requires p < s.lineIdx && IsDrawLine(lines[p])
    ensures |WrapOne(lines, s)| == |lines| + 2
    ensures WrapOne(lines, s)[..p + 1] == lines[..p + 1]
  {
    var at := WrapAt(s.lineIdx, MovedFor(lines, s, s.lineIdx));
    WrapOnePrefix(lines, s);
    MovedBelowDraw(lines, s, p);
    PrefixOfPrefix(WrapOne(lines, s), lines, at, p + 1);
  }

  /** The list grows by two and keeps its lines above the block. */
  lemma WrapOnePrefix(lines: seq<string>, s: ToggleSpec)
    requires s.lineIdx < |lines|
    ensures var at := WrapAt(s.lineIdx, MovedFor(lines, s, s.lineIdx));
            |WrapOne(lines, s)| == |lines| + 2 && at <= |lines| && WrapOne(lines, s)[..at] == lines[..at]
  {
    WrapOneShape(lines, s);
  }

  lemma PrefixOfPrefix(a: seq<string>, b: seq<string>, n: nat, m: nat)
    requires m <= n <= |a| && n <= |b| && a[..n] == b[..n]
    ensures a[..m] == b[..m]
  {
    assert a[..m] == a[..n][..m];
    assert b[..m] == b[..n][..m];
  }

  /** A moved comment lies below any earlier draw line. */
  lemma MovedBelowDraw(lines: seq<string>, s: ToggleSpec, p: nat)
    requires s.lineIdx < |lines| && (s.comment.Some? ==> IsComment(s.comment.value))
    requires p < s.lineIdx && IsDrawLine(lines[p])
    ensures MovedFor(lines, s, s.lineIdx).Some? ==> p < MovedFor(lines, s, s.lineIdx).value.0
  {
    var idx := s.lineIdx;
    var moved := MovedFor(lines, s, idx);
    if moved.Some? {
      var j := moved.value.0;
      MovedForSpec(lines, s, idx);
      ContainsLength(Strip(lines[p]), "drawindexed");
      assert p <= j;
      assert StartsWith(Strip(lines[j]), ";");
      assert p != j;
    }
  }

  lemma {:induction false} WrapAllSnoc(lines: seq<string>, xs: seq<ToggleSpec>, x: ToggleSpec)
    ensures WrapAll(lines, xs + [x]) == WrapOne(WrapAll(lines, xs), x)
    decreases |xs|
  {
    if xs == [] {
      assert [] + [x] == [x];
      assert [x][1..] == [];
    } else {
      assert (xs + [x])[0] == xs[0] && (xs + [x])[1..] == xs[1..] + [x];
      WrapAllSnoc(WrapOne(lines, xs[0]), xs[1..], x);
    }
  }

  /** The `k`-th pair of consecutive specs of such an order. */
  lemma TargetsAt(lines: seq<string>, order: seq<ToggleSpec>, k: nat)
    requires Targets(lines, order) && k + 1 < |order|
    ensures Target(lines, order[k]) && Target(lines, order[k + 1]) && order[k + 1].lineIdx < order[k].lineIdx
  {
  }

  /** The lists before the `k`-th and the `k + 1`-th spec. */
  lemma WrapAllSnocAt(lines: seq<string>, order: seq<ToggleSpec>, k: nat, prev: seq<string>)
    requires k < |order| && prev == WrapAll(lines, order[..k])
    ensures WrapAll(lines, order[..k + 1]) == WrapOne(prev, order[k])
  {
    assert order[..k + 1] == order[..k] + [order[k]];
    WrapAllSnoc(lines, order[..k], order[k]);
  }

  /** One step of `WrapStepAtOriginal`. */
  lemma KeepStep(prev: seq<string>, lines: seq<string>, s: ToggleSpec, p: nat, r: seq<string>)
    requires Target(lines, s) && p < s.lineIdx && IsDrawLine(lines[p])
    requires |prev| >= |lines| && prev[..s.lineIdx + 1] == lines[..s.lineIdx + 1]
    requires r == WrapOne(prev, s)
    ensures |r| == |prev| + 2 && r[..p + 1] == lines[..p + 1]
  {
    assert prev[p] == prev[..s.lineIdx + 1][p];
    WrapOneKeepsAbove(prev, s, p);
    assert prev[..p + 1] == prev[..s.lineIdx + 1][..p + 1];
    assert lines[..p + 1] == lines[..s.lineIdx + 1][..p + 1];
  }

  /** After `k` wraps the list has grown by `2 * k` lines and still holds the
      original lines up to and including line `idx`. */
  predicate KeptUpTo(before: seq<string>, lines: seq<string>, k: nat, idx: nat) {
    |before| == |lines| + 2 * k && idx < |lines| && before[..idx + 1] == lines[..idx + 1]
  }

  lemma StepKept(lines: seq<string>, s: ToggleSpec, t: ToggleSpec, k: nat, prev: seq<string>, r: seq<string>)
    requires Target(lines, s) && Target(lines, t) && t.lineIdx < s.lineIdx && 0 < k
    requires KeptUpTo(prev, lines, k - 1, s.lineIdx)
    requires r == WrapOne(prev, s)
    ensures KeptUpTo(r, lines, k, t.lineIdx)
  {
    KeepStep(prev, lines, s, t.lineIdx, r);
  }

  /** Specs processed from the bottom up each find their own line where it was
      in the original file: when the `k`-th spec's turn comes, every line up
      to and including its draw line is still the original one. */
  lemma {:induction false} WrapStepAtOriginal(lines: seq<string>, order: seq<ToggleSpec>, k: nat)
    requires Targets(lines, order) && k < |order|
    ensures KeptUpTo(WrapAll(lines, order[..k]), lines, k, order[k].lineIdx)
    decreases k
  {
    if k == 0 {
      assert order[..0] == [];
      assert Target(lines, order[0]);
    } else {
      WrapStepAtOriginal(lines, order, k - 1);
      var prev := WrapAll(lines, order[..k - 1]);
      WrapAllSnocAt(lines, order, k - 1, prev);
      TargetsAt(lines, order, k - 1);
      StepKept(lines, order[k - 1], order[k], k, prev, WrapAll(lines, order[..k]));
    }
  }

  /** The comment search looks only at the lines above the draw line. */
  lemma {:induction false} NonBlankFromPrefix(a: seq<string>, b: seq<string>, j: int)
    requires j < |a| && j < |b|
    requires forall q :: 0 <= q <= j ==> a[q] == b[q]
    ensures NonBlankFrom(a, j) == NonBlankFrom(b, j)
    decreases j + 1
  {
    if j >= 0 {
      NonBlankFromPrefix(a, b, j - 1);
    }
  }

  /** So the `k`-th spec wraps its original draw line, and moves the comment
      the original file has above it. */
  lemma WrapUsesOriginal(lines: seq<string>, order: seq<ToggleSpec>, k: nat)
    requires Targets(lines, order) && k < |order|
    ensures var before := WrapAll(lines, order[..k]);
            var s := order[k];
            s.lineIdx < |before| && before[s.lineIdx] == lines[s.lineIdx] &&
            WrapOne(before, s) == Rewrap(before, s.lineIdx, s.variable, MovedFor(lines, s, s.lineIdx))
  {
    WrapStepAtOriginal(lines, order, k);
    OriginalAt(WrapAll(lines, order[..k]), lines, order[k], k);
  }

  lemma OriginalAt(before: seq<string>, lines: seq<string>, s: ToggleSpec, k: nat)
    requires KeptUpTo(before, lines, k, s.lineIdx)
    ensures before[s.lineIdx] == lines[s.lineIdx]
    ensures WrapOne(before, s) == Rewrap(before, s.lineIdx, s.variable, MovedFor(lines, s, s.lineIdx))
  {
    var idx := s.lineIdx;
    forall q | 0 <= q <= idx ensures before[q] == lines[q] {
      assert before[q] == before[..idx + 1][q];
      assert lines[q] == lines[..idx + 1][q];
    }
    NonBlankFromPrefix(before, lines, idx as int - 1);
  }

  /** Specs queued for the entries of `lines` (one per line) are applied to
      their original lines, from the bottom up, each adding two lines. */
  lemma WrapDrawTargets(lines: seq<string>, specs: seq<ToggleSpec>)
    requires OnePerLine(specs) && forall s :: s in specs ==> Target(lines, s)
    ensures Targets(lines, SortDesc(specs, LineKey))
    ensures |WrapAll(lines, SortDesc(specs, LineKey))| == |lines| + 2 * |specs|
  {
    var order := SortDesc(specs, LineKey);
    SortDescSorted(specs, LineKey);
    assert DistinctKeys(specs, LineKey);
    SortDescDistinct(specs, LineKey);
    forall k | 0 <= k < |order| ensures Target(lines, order[k]) {
      assert order[k] in multiset(order);
    }
    forall k, l | 0 <= k < l < |order| ensures order[k].lineIdx > order[l].lineIdx {
      assert LineKey(order[k]) >= LineKey(order[l]) && LineKey(order[k]) != LineKey(order[l]);
    }
    WrapAllGrows(lines, order);
  }

  // ---------------------------------------------------------------------
  // `insert_keys`

  /** Where `insert_keys` puts its block: the first header after the first
      `[constants]` line (after line 0 when there is none), else the end. */
  function KeysAt(lines: seq<string>): (e: nat)
    ensures e <= |lines|
  {
    NextHeader(lines, ConstantsAt(lines) + 1)
  }

  /** `insert_keys`: a blank line, one key section per distinct variable of
      the pairs, and a blank line, whatever the file already holds. */
  function InsertKeys(lines: seq<string>, pairs: seq<(string, string)>): seq<string> {
    Splice(lines, KeysAt(lines), ["\n"] + KeyLines(DictOf(pairs), {}) + ["\n"])
  }

  /** `r` holds, from `at` on, one key section per name of `u`, each with the
      key of that name's last pair. */
  predicate KeySectionsAt(r: seq<string>, at: nat, u: seq<string>, pairs: seq<(string, string)>) {
    at + 6 * |u| <= |r| &&
    forall t :: 0 <= t < |u| ==>
      LastValue(pairs, u[t], None).Some? &&
      r[at + 6 * t..at + 6 * t + 6] == KeySection(u[t], LastValue(pairs, u[t], None).value)
  }

  /** The list grows by two lines plus six per distinct variable; the block
      holds one section per variable, in the order of first appearance, with
      the key of that variable's last pair; nothing else changes. */
  lemma InsertKeysShape(lines: seq<string>, pairs: seq<(string, string)>)
    ensures var e := KeysAt(lines);
            var u := Unseen(KeysOf(pairs), {});
            var r := InsertKeys(lines, pairs);
            |r| == |lines| + 2 + 6 * |u| &&
            r[..e] == lines[..e] && r[e] == "\n" && r[e + 1 + 6 * |u|] == "\n" &&
            r[e + 2 + 6 * |u|..] == lines[e..] &&
            InFirstOrder(u, KeysOf(pairs)) && KeySectionsAt(r, e + 1, u, pairs)
  {
    var u := Unseen(KeysOf(pairs), {});
    KeyBlock(pairs, {});
    UnseenOrder(KeysOf(pairs), {});
    BlockShape(lines, KeysAt(lines), KeyLines(DictOf(pairs), {}), u, pairs, InsertKeys(lines, pairs));
  }

  /** The layout of the key block, with the sections of `kl` in place. */
  lemma BlockShape(lines: seq<string>, e: nat, kl: seq<string>, u: seq<string>, pairs: seq<(string, string)>, r: seq<string>)
    requires e <= |lines| && r == Splice(lines, e, ["\n"] + kl + ["\n"]) && |kl| == 6 * |u|
    requires forall t :: 0 <= t < |u| ==>
               LastValue(pairs, u[t], None).Some? &&
               kl[6 * t..6 * t + 6] == KeySection(u[t], LastValue(pairs, u[t], None).value)
    ensures |r| == |lines| + 2 + 6 * |u| && r[..e] == lines[..e] && r[e] == "\n" && r[e + 1 + 6 * |u|] == "\n"
    ensures r[e + 2 + 6 * |u|..] == lines[e..] && KeySectionsAt(r, e + 1, u, pairs)
  {
    BlockAt(lines, e, kl, r);
    SectionsShift(r, e + 1, kl, u, pairs);
  }

  lemma SliceOfSlice(s: seq<string>, a: nat, b: nat, c: nat, d: nat)
    requires a <= b <= |s| && c <= d <= b - a
    ensures s[a..b][c..d] == s[a + c..a + d]
  {
    forall j | 0 <= j < d - c ensures s[a..b][c..d][j] == s[a + c..a + d][j] {
    }
  }

  /** The layout of a blank line, `kl` and a blank line spliced in at `e`. */
  lemma BlockAt(lines: seq<string>, e: nat, kl: seq<string>, r: seq<string>)
    requires e <= |lines| && r == Splice(lines, e, ["\n"] + kl + ["\n"])
    ensures |r| == |lines| + 2 + |kl| && r[..e] == lines[..e] && r[e] == "\n" && r[e + 1 + |kl|] == "\n"
    ensures r[e + 2 + |kl|..] == lines[e..] && r[e + 1..e + 1 + |kl|] == kl
  {
    var block := ["\n"] + kl + ["\n"];
    assert r == lines[..e] + block + lines[e..];
    assert block[1..1 + |kl|] == kl;
  }

  /** Sections of `kl` seen through a copy of it at `at`. */
  lemma SectionsShift(r: seq<string>, at: nat, kl: seq<string>, u: seq<string>, pairs: seq<(string, string)>)
    requires at + |kl| <= |r| && r[at..at + |kl|] == kl && |kl| == 6 * |u|
    requires forall t :: 0 <= t < |u| ==>
               LastValue(pairs, u[t], None).Some? &&
               kl[6 * t..6 * t + 6] == KeySection(u[t], LastValue(pairs, u[t], None).value)
    ensures KeySectionsAt(r, at, u, pairs)
  {
    forall t | 0 <= t < |u| ensures r[at + 6 * t..at + 6 * t + 6] == kl[6 * t..6 * t + 6] {
      SliceOfSlice(r, at, at + |kl|, 6 * t, 6 * t + 6);
    }
  }

  /** With no specs the list still grows by two blank lines. */
  lemma InsertKeysNothing(lines: seq<string>)
    ensures InsertKeys(lines, []) == lines[..KeysAt(lines)] + ["\n", "\n"] + lines[KeysAt(lines)..]
  {
    assert KeyLines(DictOf([]), {}) == [];
    assert ["\n"] + [] + ["\n"] == ["\n", "\n"];
  }

  // ---------------------------------------------------------------------
  // `apply_all`

  function VarsOf(specs: seq<ToggleSpec>): (r: seq<string>)
    ensures |r| == |specs| && forall k :: 0 <= k < |specs| ==> r[k] == specs[k].variable
  {
    seq(|specs|, k requires 0 <= k < |specs| => specs[k].variable)
  }

  function PairsOf(specs: seq<ToggleSpec>): (r: seq<(string, string)>)
    ensures |r| == |specs| && forall k :: 0 <= k < |specs| ==> r[k] == (specs[k].variable, specs[k].key)
  {
    seq(|specs|, k requires 0 <= k < |specs| => (specs[k].variable, specs[k].key))
  }

  /** `apply_all`: wrap, then declare, then add the key sections; a new list
      is built and the input is left as it is. */
  function ApplyAll(lines: seq<string>, specs: seq<ToggleSpec>): seq<string> {
    DeclareAll(WrapAll(lines, SortDesc(specs, LineKey)), specs)
  }

  /** `insert_keys(insert_constants(w))`. */
  function DeclareAll(w: seq<string>, specs: seq<ToggleSpec>): seq<string> {
    InsertKeys(InsertConstants(w, VarsOf(specs)), PairsOf(specs))
  }

  /** Declarations seen in a stretch survive when the stretch is kept and
      extended. */
  lemma DeclaredKept(m: seq<string>, r: seq<string>, a: nat, b: nat, b2: nat)
    requires a <= b <= |m| && b <= b2 <= |r|
    requires forall k :: a <= k < b ==> r[k] == m[k]
    ensures Declared(m, a, b) <= Declared(r, a, b2)
  {
    forall v | v in Declared(m, a, b) ensures v in Declared(r, a, b2) {
      var k :| a <= k < b && PersistVar(m[k]) == Some(v);
      assert PersistVar(r[k]) == Some(v);
    }
  }

  /** A block spliced in at the end of the Constants body leaves the
      `[constants]` line where it was and keeps the body's declarations. */
  lemma KeysKeepDeclared(m: seq<string>, c: nat, block: seq<string>)
    requires ConstantsIndex(m) == Some(c)
    ensures var e := NextHeader(m, c + 1);
            var r := Splice(m, e, block);
            ConstantsIndex(r) == Some(c) && Declared(m, c, e) <= Declared(r, c, NextHeader(r, c + 1))
  {
    var e := NextHeader(m, c + 1);
    var r := Splice(m, e, block);
    SpliceConstantsIndex(m, e, block, c);
    var e2 := NextHeader(r, c + 1);
    assert e <= e2 by {
      forall k | c + 1 <= k < e ensures !IsHeader(r[k]) {
        assert r[k] == m[k];
      }
    }
    DeclaredKept(m, r, c, e, e2);
  }

  /** The spec variables declared in `m` stay declared once the key block is
      added. */
  lemma KeysDeclare(m: seq<string>, c: nat, block: seq<string>, vars: seq<string>, specs: seq<ToggleSpec>, r: seq<string>)
    requires ConstantsIndex(m) == Some(c)
    requires forall v :: v in vars ==> v in Declared(m, c, NextHeader(m, c + 1))
    requires |vars| == |specs| && forall k :: 0 <= k < |specs| ==> vars[k] == specs[k].variable
    requires r == Splice(m, NextHeader(m, c + 1), block)
    ensures ConstantsIndex(r) == Some(c)
    ensures forall k :: 0 <= k < |specs| ==> specs[k].variable in Declared(r, c, NextHeader(r, c + 1))
  {
    KeysKeepDeclared(m, c, block);
    forall k | 0 <= k < |specs| ensures specs[k].variable in Declared(r, c, NextHeader(r, c + 1)) {
      assert vars[k] in vars;
    }
  }

  /** The key block of `apply_all` goes right after the persist lines that
      `insert_constants` added to the wrapped lines `w`, and every spec
      variable that is a plain identifier ends up declared in the Constants
      body. */
  lemma DeclareAllDeclares(w: seq<string>, specs: seq<ToggleSpec>)
    requires forall k :: 0 <= k < |specs| ==> IsIdent(specs[k].variable)
    ensures var m := InsertConstants(w, VarsOf(specs));
            var c := ConstantsAt(w);
            var r := DeclareAll(w, specs);
            KeysAt(m) == NextHeader(WithConstants(w), c + 1) + |NewPersists(w, VarsOf(specs))| &&
            ConstantsIndex(r) == Some(c) &&
            forall k :: 0 <= k < |specs| ==> specs[k].variable in Declared(r, c, NextHeader(r, c + 1))
  {
    var vars := VarsOf(specs);
    var m := InsertConstants(w, vars);
    var c := ConstantsAt(w);
    assert forall v :: v in vars ==> IsIdent(v);
    ConstantsStage(w, vars);
    var block := ["\n"] + KeyLines(DictOf(PairsOf(specs)), {}) + ["\n"];
    KeysDeclare(m, c, block, vars, specs, DeclareAll(w, specs));
  }

  /** After `insert_constants` the key block's place is right after the new
      persist lines, and the variables are declared. */
  lemma ConstantsStage(w: seq<string>, vars: seq<string>)
    requires forall v :: v in vars ==> IsIdent(v)
    ensures var m := InsertConstants(w, vars);
            var c := ConstantsAt(w);
            KeysAt(m) == NextHeader(WithConstants(w), c + 1) + |NewPersists(w, vars)| &&
            ConstantsIndex(m) == Some(c) && ConstantsAt(m) == c &&
            forall v :: v in vars ==> v in Declared(m, c, NextHeader(m, c + 1))
  {
    InsertConstantsBody(w, vars);
    InsertConstantsDeclares(w, vars);
  }

  // ---------------------------------------------------------------------
  // The application.

  /** What `apply` writes: nothing without pending specs or without a path,
      else `apply_all` of the lines read by the last scan. */
  function ApplyResult(lines: seq<string>, specs: seq<ToggleSpec>, path: string): Option<seq<string>> {
    if specs == [] || Strip(path) == "" then None else Some(ApplyAll(lines, specs))
  }

  class App {
    /** The lines read by the last scan; `apply` never updates them. */
    var lines: seq<string>
    var entries: seq<DrawEntry>
    var specs: seq<ToggleSpec>

    /** The entries are those of the lines, and the pending specs, one per
        line, were made for entries. */
    predicate Valid()
      reads this
    {
      entries == ParseSpec(lines) && Pending(lines, specs)
    }

    constructor ()
      ensures Valid() && lines == [] && entries == [] && specs == []
    {
      lines := [];
      entries := [];
      specs := [];
    }

    /** `scan`, given the file's lines (`None` when the path names no file). */
    method Scan(file: Option<seq<string>>)
      requires Valid()
      modifies this
      ensures Valid()
      ensures file.None? ==> lines == old(lines) && entries == old(entries) && specs == old(specs)
      ensures file.Some? ==> lines == file.value && entries == ParseSpec(lines) && specs == []
    {
      if file.None? {
        return;
      }
      lines := file.value;
      entries := ParseDraw(lines);
      specs := [];
    }

    /** `add_toggle` for the selected positions `sel`, with the answers to the
        variable and key dialogs (`None` for a cancelled dialog). */
    method AddToggle(sel: seq<nat>, varAnswer: Option<string>, keyAnswer: Option<string>)
      requires Valid() && Selects(sel, |entries|)
      modifies this
      ensures Valid() && lines == old(lines) && entries == old(entries)
      ensures specs == AddSpecs(old(specs), entries, sel, varAnswer, keyAnswer)
    {
      if sel == [] {
        return;
      }
      if !Answered(varAnswer) {
        return;
      }
      if !Answered(keyAnswer) {
        return;
      }
      var v, key := Strip(varAnswer.value), Strip(keyAnswer.value);
      ghost var start := specs;
      var k := 0;
      while k < |sel|
        invariant 0 <= k <= |sel|
        invariant lines == old(lines) && entries == old(entries) && Valid()
        invariant Selects(sel[..k], |entries|)
        invariant specs == QueueAll(start, entries, sel[..k], v, key)
      {
        var e := entries[sel[k]];
        EntryTarget(lines, sel[k], v, key);
        RequeuePending(lines, specs, e, v, key);
        specs := OtherLines(specs, e.lineIdx);
        specs := specs + [SpecFor(e, v, key)];
        assert sel[..k + 1][..k] == sel[..k];
        k := k + 1;
      }
      assert sel[..|sel|] == sel;
    }

    /** `clear_toggle`: drop the pending specs. */
    method ClearPending()
      requires Valid()
      modifies this
      ensures Valid() && specs == [] && lines == old(lines) && entries == old(entries)
    {
      specs := [];
    }

    /** `apply` for the path typed in the path field: the lines written to that
        file, or `None` when nothing is written. Nothing in the application
        changes. With the specs the application keeps, every spec is wrapped
        at its original line, two lines each. */
    method Apply(path: string) returns (written: Option<seq<string>>)
      requires Valid()
      ensures written == ApplyResult(lines, specs, path)
      ensures written.Some? ==> Targets(lines, SortDesc(specs, LineKey)) &&
                                |WrapAll(lines, SortDesc(specs, LineKey))| == |lines| + 2 * |specs|
    {
      if specs == [] {
        return None;
      }
      if Strip(path) == "" {
        return None;
      }
      WrapDrawTargets(lines, specs);
      var out := ApplyAllLines(lines, specs);
      return Some(out);
    }

    /** `apply_all`, with the wrap pass as a loop. */
    static method ApplyAllLines(lines: seq<string>, specs: seq<ToggleSpec>) returns (out: seq<string>)
      ensures out == ApplyAll(lines, specs)
    {
      out := WrapDraw(lines, specs);
      out := InsertConstants(out, VarsOf(specs));
      out := InsertKeys(out, PairsOf(specs));
    }
  }

  /** Pending specs: one per line, each for a draw line of `lines`. */
  predicate Pending(lines: seq<string>, specs: seq<ToggleSpec>) {
    OnePerLine(specs) && forall s :: s in specs ==> Target(lines, s)
  }

  /** Requeueing a spec made for a draw line keeps the queue pending. */
  lemma RequeuePending(lines: seq<string>, specs: seq<ToggleSpec>, e: DrawEntry, v: string, key: string)
    requires Pending(lines, specs) && Target(lines, SpecFor(e, v, key))
    ensures Pending(lines, Requeue(specs, e, v, key))
  {
    RequeueOnePerLine(specs, e, v, key);
  }

  lemma EntryTarget(lines: seq<string>, k: nat, v: string, key: string)
    requires k < |ParseSpec(lines)|
    ensures Target(lines, SpecFor(ParseSpec(lines)[k], v, key))
  {
    var ks := Kinds(lines);
    EntriesToIndices(lines, ks, |lines|);
    var i := ParseSpec(lines)[k].lineIdx;
    EntryLine(lines, i);
    RememberedIsComment(lines, i);
  }
}
