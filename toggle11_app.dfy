/** Toggle maker v1.1.0: the application state and the operations behind its
    buttons, without the dialogs. `scan` loads a file and lists its draw
    entries, `remove_toggle` unwraps the selected simple toggles in the working
    copy (`delete_existing`), `add_toggle` queues a toggle spec per selected
    entry (after unwrapping existing ones when the user confirms), and `apply`
    runs the rewriting pipeline and hands back the lines to write. */
module Toggle11App {
  import opened PyText
  import opened IniSections
  import opened GuardBlocks
  import opened Toggle11Blocks
  import opened Toggle11Entries
  import opened Toggle11Wrap
  import opened StableSort
  import opened Declarations
  import opened Toggle11Keys
  import opened Toggle11Prune

  // ---------------------------------------------------------------------
  // `delete_existing` on values.

  /** The first draw line among the positions `a..b` of `lines` (the slice
      `lines[a:b]` clamps at the end of the list). */
  function FirstDraw(lines: seq<string>, a: nat, b: nat): (r: Option<nat>)
    ensures r.Some? ==> a <= r.value < b && r.value < |lines|
    decreases b - a
  {
    if a >= b || a >= |lines| then None
    else if IsDrawLine(lines[a]) then Some(a)
    else FirstDraw(lines, a + 1, b)
  }

  /** The search finds the first draw line of the range, or says there is
      none. */
  lemma {:induction false} FirstDrawSpec(lines: seq<string>, a: nat, b: nat)
    ensures FirstDraw(lines, a, b).Some? ==>
              IsDrawLine(lines[FirstDraw(lines, a, b).value]) &&
              forall p :: a <= p < FirstDraw(lines, a, b).value ==> !IsDrawLine(lines[p])
    ensures FirstDraw(lines, a, b).None? ==> forall p :: a <= p < b && p < |lines| ==> !IsDrawLine(lines[p])
    decreases b - a
  {
    if a < b && a < |lines| && !IsDrawLine(lines[a]) {
      FirstDrawSpec(lines, a + 1, b);
    }
  }

  /** The comment line directly above the first draw line of the guard span
      `idx..end`, when that line is still inside the span. */
  function RestoredComment(lines: seq<string>, idx: nat, end: nat): Option<string> {
    var d := FirstDraw(lines, idx, end + 1);
    if d.Some? && d.value > idx && IsComment(lines[d.value - 1]) then Some(lines[d.value - 1]) else None
  }

  /** How many times `lines.pop(idx)` runs: `range(end - idx + 1)`. */
  function PopCount(idx: nat, end: nat): nat {
    if end >= idx then end - idx + 1 else 0
  }

  /** Python's `list.insert`: an index past the end appends. */
  function Insert(s: seq<string>, i: nat, x: string): (r: seq<string>)
    ensures |r| == |s| + 1
    ensures i < |s| ==> r == s[..i] + [x] + s[i..]
    ensures i >= |s| ==> r == s + [x]
  {
    if i >= |s| then s + [x] else s[..i] + [x] + s[i..]
  }

  /** The lines, the entry and whether `IndexError` was raised after a call. */
  datatype Unwrap = Unwrap(lines: seq<string>, entry: EntryView, raised: bool)

  /** The entry marked as no longer toggled. */
  function Untoggled(e: EntryView): EntryView {
    e.(existing := false, status := NoToggle, variable := None)
  }

  /** The lines after the pops and the re-inserts of `delete_existing` for
      the guard span `idx..end`, the position the draw line went to, and
      whether a pop ran off the end of the list. */
  datatype Span = Span(lines: seq<string>, at: nat, raised: bool)

  function UnwrapSpan(lines: seq<string>, idx: nat, end: nat, drawline: string): Span {
    var n := PopCount(idx, end);
    if n > 0 && idx + n > |lines| then
      // the pops run off the end of the list: the lines from `idx` on are gone
      Span(if idx < |lines| then lines[..idx] else lines, idx, true)
    else
      var comment := RestoredComment(lines, idx, end);
      var rest := if n > 0 then lines[..idx] + lines[idx + n..] else lines;
      var at := if comment.Some? then idx + 1 else idx;
      var withComment := if comment.Some? then Insert(rest, idx, comment.value) else rest;
      Span(Insert(withComment, at, drawline), at, false)
  }

  /** `delete_existing(entry)` on the working copy `lines`. After an
      `IndexError` the entry is left as it was. */
  function DeleteView(lines: seq<string>, e: EntryView): Unwrap {
    if !e.existing then Unwrap(lines, e, false)
    else if e.ifStart.None? || e.ifEnd.None? then Unwrap(lines, Untoggled(e), false)
    else
      var sp := UnwrapSpan(lines, e.ifStart.value, e.ifEnd.value, e.drawline);
      if sp.raised then Unwrap(sp.lines, e, true)
      else Unwrap(sp.lines, Untoggled(e).(ifStart := None, ifEnd := None, lineIdx := sp.at), false)
  }

  // ---------------------------------------------------------------------
  // What `delete_existing` does.

  /** Nothing happens to an entry that is not an existing simple toggle. */
  lemma DeleteNoop(lines: seq<string>, e: EntryView)
    requires !e.existing
    ensures DeleteView(lines, e) == Unwrap(lines, e, false)
  {
  }

  /** `IndexError` is raised exactly when the span reaches past the end of the
      list; the lines before the span survive and the entry is untouched. */
  lemma DeleteRaises(lines: seq<string>, e: EntryView)
    ensures var u := DeleteView(lines, e);
            u.raised <==> e.existing && e.ifStart.Some? && e.ifEnd.Some? &&
                          e.ifStart.value <= e.ifEnd.value && e.ifEnd.value >= |lines|
    ensures var u := DeleteView(lines, e);
            u.raised ==> u.entry == e && |u.lines| <= |lines| && u.lines == lines[..|u.lines|] &&
                         |u.lines| == if e.ifStart.value < |lines| then e.ifStart.value else |lines|
  {
  }

  /** For a span inside the list, the span is replaced by the comment line
      directly above its first draw line (when that comment lies inside the
      span) and then the entry's draw line; everything before and after the
      span is kept. The entry is no longer toggled and points at its draw
      line. */
  lemma DeleteReplacesSpan(lines: seq<string>, e: EntryView)
    requires e.existing && e.ifStart.Some? && e.ifEnd.Some?
    requires e.ifStart.value <= e.ifEnd.value < |lines|
    ensures var u := DeleteView(lines, e);
            var idx := e.ifStart.value;
            var end := e.ifEnd.value;
            var c := RestoredComment(lines, idx, end);
            var kept := if c.Some? then [c.value] else [];
            !u.raised &&
            u.lines == lines[..idx] + kept + [e.drawline] + lines[end + 1..] &&
            u.entry.lineIdx == idx + |kept| && u.lines[u.entry.lineIdx] == e.drawline &&
            !u.entry.existing && u.entry.status == NoToggle && u.entry.variable.None? &&
            u.entry.ifStart.None? && u.entry.ifEnd.None? &&
            u.entry.comp == e.comp && u.entry.comment == e.comment && u.entry.drawline == e.drawline
  {
    var idx := e.ifStart.value;
    var end := e.ifEnd.value;
    var rest := lines[..idx] + lines[end + 1..];
    assert rest[..idx] == lines[..idx] && rest[idx..] == lines[end + 1..];
    var c := RestoredComment(lines, idx, end);
    if c.Some? {
      var w := Insert(rest, idx, c.value);
      assert w == lines[..idx] + [c.value] + lines[end + 1..];
      assert w[..idx + 1] == lines[..idx] + [c.value] && w[idx + 1..] == lines[end + 1..];
    }
  }

  /** The restored comment is a comment line inside the span, directly above
      the span's first draw line. */
  lemma RestoredCommentSpec(lines: seq<string>, idx: nat, end: nat)
    ensures RestoredComment(lines, idx, end).Some? ==>
              FirstDraw(lines, idx, end + 1).Some? &&
              idx < FirstDraw(lines, idx, end + 1).value <= end &&
              IsComment(lines[FirstDraw(lines, idx, end + 1).value - 1]) &&
              RestoredComment(lines, idx, end).value == lines[FirstDraw(lines, idx, end + 1).value - 1] &&
              IsDrawLine(lines[FirstDraw(lines, idx, end + 1).value]) &&
              forall p :: idx <= p < FirstDraw(lines, idx, end + 1).value ==> !IsDrawLine(lines[p])
  {
    FirstDrawSpec(lines, idx, end + 1);
  }

  /** `delete_existing` keeps `existing` true exactly for simple toggles. */
  lemma DeleteKeepsMarks(lines: seq<string>, e: EntryView)
    requires e.existing <==> e.status == Simple
    ensures var u := DeleteView(lines, e).entry;
            u.existing <==> u.status == Simple
  {
  }

  // ---------------------------------------------------------------------
  // Unwrapping what `wrap_draw` wrote.

  /** In a three-line span whose first line is no comment and whose middle
      line is a draw line no comment is kept. */
  lemma RestoredBare(r: seq<string>, at: nat)
    requires at + 3 <= |r| && !IsComment(r[at]) && IsDrawLine(r[at + 1])
    ensures RestoredComment(r, at, at + 2) == None
  {
    FirstDrawSpec(r, at, at + 3);
    var d := FirstDraw(r, at, at + 3);
    assert d.Some? && d.value <= at + 1;
  }

  /** In a four-line span of a non-draw line, a comment and a draw line the
      comment is kept. */
  lemma RestoredOne(r: seq<string>, at: nat)
    requires at + 4 <= |r| && !IsDrawLine(r[at]) && IsComment(r[at + 1]) && IsDrawLine(r[at + 2])
    ensures RestoredComment(r, at, at + 3) == Some(r[at + 1])
  {
    assert !IsDrawLine(r[at + 1]);
    FirstDrawSpec(r, at, at + 4);
    assert FirstDraw(r, at, at + 4) == Some(at + 2);
  }

  /** A three-line span whose first line is no comment and whose middle line
      is a draw line comes back as the entry's draw line alone. */
  lemma UnwrapBare(r: seq<string>, at: nat, e: EntryView)
    requires at + 3 <= |r| && !IsComment(r[at]) && IsDrawLine(r[at + 1])
    requires e.existing && e.ifStart == Some(at) && e.ifEnd == Some(at + 2)
    ensures DeleteView(r, e).lines == r[..at] + [e.drawline] + r[at + 3..]
  {
    RestoredBare(r, at);
    DeleteReplacesSpan(r, e);
  }

  /** A four-line span of a non-draw line, a comment and a draw line comes
      back as the comment followed by the entry's draw line. */
  lemma UnwrapCommented(r: seq<string>, at: nat, e: EntryView)
    requires at + 4 <= |r| && !IsDrawLine(r[at]) && IsComment(r[at + 1]) && IsDrawLine(r[at + 2])
    requires e.existing && e.ifStart == Some(at) && e.ifEnd == Some(at + 3)
    ensures DeleteView(r, e).lines == r[..at] + [r[at + 1], e.drawline] + r[at + 4..]
  {
    RestoredOne(r, at);
    DeleteReplacesSpan(r, e);
    PairSplice(r[..at], r[at + 1], e.drawline, r[at + 4..]);
  }

  lemma PairSplice<T>(a: seq<T>, x: T, y: T, b: seq<T>)
    ensures a + [x] + [y] + b == a + [x, y] + b
  {
    assert [x] + [y] == [x, y];
  }

  /** The guard line a wrap writes is no comment. */
  lemma GuardNotComment(indent: string, v: string)
    requires AllSpace(indent)
    ensures !IsComment(GuardLine(indent, v))
  {
    var t := "if $" + v + " == 0";
    assert GuardLine(indent, v) == indent + t + "\n";
    StripPadded(indent, t, "\n");
    StripTrimmed(t);
    assert Strip(GuardLine(indent, v))[0] == 'i';
  }

  /** A wrap without a moved comment leaves a guard line that is no comment,
      then a draw line, then the closing line, in place of the draw line. */
  lemma RewrapBareParts(lines: seq<string>, idx: nat, v: string, r: seq<string>)
    requires idx < |lines| && IsDrawLine(lines[idx]) && r == Rewrap(lines, idx, v, None)
    ensures idx + 3 <= |r| && !IsComment(r[idx]) && IsDrawLine(r[idx + 1])
    ensures r[..idx] == lines[..idx] && r[idx + 3..] == lines[idx + 1..]
  {
    var raw := RStripNewlines(lines[idx]);
    var indent := Indent(raw);
    RewrapShape(lines, idx, v, None);
    WrapBlockParts(lines[idx], v, None);
    LStripSuffix(raw);
    var g := GuardLine(indent, v);
    var dr := BodyDrawLine(indent, Strip(raw));
    assert r[idx..idx + 3] == [g, dr, EndifLine(indent)];
    assert r[idx] == g && r[idx + 1] == dr;
    GuardNotComment(indent, v);
    BodyDrawStrip(lines[idx]);
  }

  /** Unwrapping the guard that a wrap without a moved comment put around the
      draw line at `idx` restores the list, with the entry's draw line in place
      of the original one. */
  lemma UnwrapRewrap(lines: seq<string>, idx: nat, v: string, e: EntryView)
    requires idx < |lines| && IsDrawLine(lines[idx])
    requires e.existing && e.ifStart == Some(idx) && e.ifEnd == Some(idx + 2)
    ensures DeleteView(Rewrap(lines, idx, v, None), e).lines == lines[..idx] + [e.drawline] + lines[idx + 1..]
  {
    var r := Rewrap(lines, idx, v, None);
    RewrapBareParts(lines, idx, v, r);
    UnwrapBare(r, idx, e);
  }

  /** So an entry that still carries the original draw line unwraps to
      exactly the list before the wrap. */
  lemma UnwrapRewrapRestores(lines: seq<string>, idx: nat, v: string, e: EntryView)
    requires idx < |lines| && IsDrawLine(lines[idx]) && e.drawline == lines[idx]
    requires e.existing && e.ifStart == Some(idx) && e.ifEnd == Some(idx + 2)
    ensures DeleteView(Rewrap(lines, idx, v, None), e).lines == lines
  {
    UnwrapRewrap(lines, idx, v, e);
    PutBack(DeleteView(Rewrap(lines, idx, v, None), e).lines, lines, idx);
  }

  lemma PutBack(x: seq<string>, lines: seq<string>, idx: nat)
    requires idx < |lines| && x == lines[..idx] + [lines[idx]] + lines[idx + 1..]
    ensures x == lines
  {
    assert lines == lines[..idx] + [lines[idx]] + lines[idx + 1..];
  }

  /** With a moved comment, unwrapping puts the moved comment (re-indented)
      back directly above the draw line, at the comment's old place; the lines
      that separated them follow. This needs the guard line itself not to read
      as a draw line, which fails only for a variable whose name contains
      `drawindexed`. */
  lemma UnwrapRewrapComment(lines: seq<string>, idx: nat, v: string, c: nat, text: string, e: EntryView)
    requires c < idx < |lines| && IsDrawLine(lines[idx]) && IsComment(text)
    requires !IsDrawLine(GuardLine(Indent(RStripNewlines(lines[idx])), v))
    requires e.existing && e.ifStart == Some(c) && e.ifEnd == Some(c + 3)
    ensures var indent := Indent(RStripNewlines(lines[idx]));
            DeleteView(Rewrap(lines, idx, v, Some((c, text))), e).lines ==
              lines[..c] + [MovedComment(indent, text), e.drawline] + lines[c + 1..idx] + lines[idx + 1..]
  {
    var r := Rewrap(lines, idx, v, Some((c, text)));
    RewrapCommentParts(lines, idx, v, c, text, r);
    UnwrapCommented(r, c, e);
    Reassemble(DeleteView(r, e).lines, r, lines, c, idx, MovedComment(Indent(RStripNewlines(lines[idx])), text), e.drawline);
  }

  /** A wrap with a moved comment leaves a guard line that is no draw line,
      the moved comment, a draw line and the closing line at the comment's
      place; the lines between them follow. */
  lemma RewrapCommentParts(lines: seq<string>, idx: nat, v: string, c: nat, text: string, r: seq<string>)
    requires c < idx < |lines| && IsDrawLine(lines[idx]) && IsComment(text)
    requires !IsDrawLine(GuardLine(Indent(RStripNewlines(lines[idx])), v))
    requires r == Rewrap(lines, idx, v, Some((c, text)))
    ensures c + 4 <= |r| && !IsDrawLine(r[c]) && IsComment(r[c + 1]) && IsDrawLine(r[c + 2])
    ensures r[c + 1] == MovedComment(Indent(RStripNewlines(lines[idx])), text)
    ensures r[..c] == lines[..c] && r[c + 4..] == lines[c + 1..idx] + lines[idx + 1..]
  {
    var raw := RStripNewlines(lines[idx]);
    var indent := Indent(raw);
    RewrapShape(lines, idx, v, Some((c, text)));
    WrapBlockParts(lines[idx], v, Some(text));
    LStripSuffix(raw);
    var g := GuardLine(indent, v);
    var m := MovedComment(indent, text);
    var dr := BodyDrawLine(indent, Strip(raw));
    assert r[c..c + 4] == [g, m, dr, EndifLine(indent)];
    assert r[c] == g && r[c + 1] == m && r[c + 2] == dr;
    assert AllSpace(indent);
    MovedCommentStrip(indent, text);
    BodyDrawStrip(lines[idx]);
  }

  lemma Reassemble(x: seq<string>, r: seq<string>, lines: seq<string>, c: nat, idx: nat, m: string, d: string)
    requires c + 4 <= |r| && c < idx < |lines| && r[c + 1] == m
    requires r[..c] == lines[..c] && r[c + 4..] == lines[c + 1..idx] + lines[idx + 1..]
    requires x == r[..c] + [r[c + 1], d] + r[c + 4..]
    ensures x == lines[..c] + [m, d] + lines[c + 1..idx] + lines[idx + 1..]
  {
  }

  // ---------------------------------------------------------------------
  // The selection logic of `remove_toggle` and `add_toggle`, on values.

  /** The outcome of a walk over the selection. */
  datatype Pass = Pass(lines: seq<string>, views: seq<EntryView>, changed: bool, raised: bool)

  /** `remove_toggle` from the `k`-th selected entry on: mixed (`M`) entries
      are skipped, existing simple ones are unwrapped; an `IndexError` stops
      the walk. */
  function RemoveFrom(lines: seq<string>, vs: seq<EntryView>, sel: seq<nat>, k: nat, changed: bool): (p: Pass)
    requires Selects(sel, |vs|)
    ensures |p.views| == |vs|
    decreases |sel| - k
  {
    if k >= |sel| then Pass(lines, vs, changed, false)
    else
      var e := vs[sel[k]];
      if e.status == Mixed then RemoveFrom(lines, vs, sel, k + 1, changed)
      else if e.existing then
        var u := DeleteView(lines, e);
        if u.raised then Pass(u.lines, vs[sel[k] := u.entry], changed, true)
        else RemoveFrom(u.lines, vs[sel[k] := u.entry], sel, k + 1, true)
      else RemoveFrom(lines, vs, sel, k + 1, changed)
  }

  /** The replace step of `add_toggle` from the `k`-th selected entry on:
      every existing entry is unwrapped. */
  function ReplaceFrom(lines: seq<string>, vs: seq<EntryView>, sel: seq<nat>, k: nat): (p: Pass)
    requires Selects(sel, |vs|)
    ensures |p.views| == |vs| && p.changed
    decreases |sel| - k
  {
    if k >= |sel| then Pass(lines, vs, true, false)
    else
      var e := vs[sel[k]];
      if e.existing then
        var u := DeleteView(lines, e);
        if u.raised then Pass(u.lines, vs[sel[k] := u.entry], true, true)
        else ReplaceFrom(u.lines, vs[sel[k] := u.entry], sel, k + 1)
      else ReplaceFrom(lines, vs, sel, k + 1)
  }

  /** The spec `add_toggle` queues for an entry. */
  function SpecFor(e: EntryView, v: string, key: string): ToggleSpec {
    ToggleSpec(v, key, e.lineIdx, e.comment, e.drawline)
  }

  /** The specs queued for the selected entries, in selection order. */
  function NewSpecs(vs: seq<EntryView>, sel: seq<nat>, v: string, key: string): (r: seq<ToggleSpec>)
    requires Selects(sel, |vs|)
    ensures |r| == |sel| && forall k :: 0 <= k < |sel| ==> r[k] == SpecFor(vs[sel[k]], v, key)
  {
    seq(|sel|, k requires 0 <= k < |sel| => SpecFor(vs[sel[k]], v, key))
  }

  /** The state the application keeps between button presses. */
  datatype State = State(lines: seq<string>, views: seq<EntryView>, specs: seq<ToggleSpec>, modified: bool)

  /** Some selected entry is an existing simple toggle. */
  predicate AnyExisting(vs: seq<EntryView>, sel: seq<nat>)
    requires Selects(sel, |vs|)
  {
    exists k :: 0 <= k < |sel| && vs[sel[k]].existing
  }

  /** The replace step of `add_toggle`: it runs only when some selected entry
      is an existing toggle. */
  function ReplaceStep(st: State, sel: seq<nat>): Pass
    requires Selects(sel, |st.views|)
  {
    if AnyExisting(st.views, sel) then ReplaceFrom(st.lines, st.views, sel, 0)
    else Pass(st.lines, st.views, false, false)
  }

  /** The queueing step of `add_toggle`: with both dialogs answered, one spec
      per selected entry is queued, with the answers stripped. */
  function Queue(st: State, sel: seq<nat>, varAnswer: Option<string>, keyAnswer: Option<string>): State
    requires Selects(sel, |st.views|)
  {
    if !Answered(varAnswer) || !Answered(keyAnswer) then st
    else st.(specs := st.specs + NewSpecs(st.views, sel, Strip(varAnswer.value), Strip(keyAnswer.value)))
  }

  /** `add_toggle` with the user's answers to its three dialogs: whether to
      replace existing toggles, the variable name and the key. The flag says
      whether an `IndexError` ended it. */
  function AddSpec(st: State, sel: seq<nat>, confirm: bool, varAnswer: Option<string>, keyAnswer: Option<string>): (State, bool)
    requires Selects(sel, |st.views|)
  {
    if sel == [] || (AnyExisting(st.views, sel) && !confirm) then (st, false)
    else
      var p := ReplaceStep(st, sel);
      if p.raised then (st.(lines := p.lines, views := p.views), true)
      else (Queue(st.(lines := p.lines, views := p.views, modified := st.modified || p.changed), sel, varAnswer, keyAnswer), false)
  }

  // ---------------------------------------------------------------------
  // What the selection logic does.

  /** The walks only ever touch selected entries. */
  lemma {:induction false} RemoveFromLength(lines: seq<string>, vs: seq<EntryView>, sel: seq<nat>, k: nat, changed: bool)
    requires Selects(sel, |vs|)
    ensures var p := RemoveFrom(lines, vs, sel, k, changed);
            forall i :: 0 <= i < |vs| && (forall j :: k <= j < |sel| ==> sel[j] != i) ==> p.views[i] == vs[i]
    decreases |sel| - k
  {
    if k < |sel| {
      var e := vs[sel[k]];
      if e.status == Mixed || !e.existing {
        RemoveFromLength(lines, vs, sel, k + 1, changed);
      } else {
        var u := DeleteView(lines, e);
        if !u.raised {
          RemoveFromLength(u.lines, vs[sel[k] := u.entry], sel, k + 1, true);
        }
      }
    }
  }

  /** `remove_toggle` never unwraps a mixed (`M`) entry: every mixed entry
      comes back unchanged. */
  lemma {:induction false} RemoveKeepsMixed(lines: seq<string>, vs: seq<EntryView>, sel: seq<nat>, k: nat, changed: bool, i: nat)
    requires Selects(sel, |vs|) && i < |vs| && vs[i].status == Mixed
    ensures var p := RemoveFrom(lines, vs, sel, k, changed);
            i < |p.views| && p.views[i] == vs[i]
    decreases |sel| - k
  {
    RemoveFromLength(lines, vs, sel, k, changed);
    if k < |sel| {
      var e := vs[sel[k]];
      if e.status == Mixed || !e.existing {
        RemoveKeepsMixed(lines, vs, sel, k + 1, changed, i);
      } else {
        var u := DeleteView(lines, e);
        assert sel[k] != i;
        if !u.raised {
          RemoveKeepsMixed(u.lines, vs[sel[k] := u.entry], sel, k + 1, true, i);
        }
      }
    }
  }

  /** When no selected entry is an existing toggle outside `M`, nothing
      changes and `modified` stays as it was. */
  lemma {:induction false} RemoveNothing(lines: seq<string>, vs: seq<EntryView>, sel: seq<nat>, k: nat, changed: bool)
    requires Selects(sel, |vs|)
    requires forall j :: k <= j < |sel| ==> vs[sel[j]].status == Mixed || !vs[sel[j]].existing
    ensures RemoveFrom(lines, vs, sel, k, changed) == Pass(lines, vs, changed, false)
    decreases |sel| - k
  {
    if k < |sel| {
      RemoveNothing(lines, vs, sel, k + 1, changed);
    }
  }

  /** Once a walk without `IndexError` is over, no selected entry outside `M`
      is an existing toggle any more. */
  lemma {:induction false} RemoveClears(lines: seq<string>, vs: seq<EntryView>, sel: seq<nat>, k: nat, changed: bool)
    requires Selects(sel, |vs|) && k <= |sel|
    requires forall i :: 0 <= i < |vs| ==> (vs[i].existing <==> vs[i].status == Simple)
    requires forall j :: 0 <= j < k ==> !vs[sel[j]].existing
    ensures var p := RemoveFrom(lines, vs, sel, k, changed);
            !p.raised ==> forall j :: 0 <= j < |sel| ==> !p.views[sel[j]].existing
    decreases |sel| - k
  {
    if k < |sel| {
      var e := vs[sel[k]];
      if e.status == Mixed || !e.existing {
        RemoveClears(lines, vs, sel, k + 1, changed);
      } else {
        var u := DeleteView(lines, e);
        if !u.raised {
          var vs' := vs[sel[k] := u.entry];
          DeleteKeepsMarks(lines, e);
          RemoveClears(u.lines, vs', sel, k + 1, true);
        }
      }
    }
  }

  /** A spec queued for an entry that was just unwrapped points exactly at the
      restored draw line, so `wrap_draw` finds that line again. */
  lemma ReplacedSpecFound(lines: seq<string>, e: EntryView, v: string, key: string)
    requires e.existing && e.ifStart.Some? && e.ifEnd.Some?
    requires e.ifStart.value <= e.ifEnd.value < |lines|
    ensures var u := DeleteView(lines, e);
            FindDrawIndex(u.lines, SpecFor(u.entry, v, key)) == Some(u.entry.lineIdx)
  {
    var u := DeleteView(lines, e);
    DeleteReplacesSpan(lines, e);
    FindDrawIndexAtHint(u.lines, SpecFor(u.entry, v, key));
  }

  // ---------------------------------------------------------------------
  // `apply`

  function VarsOf(specs: seq<ToggleSpec>): (r: seq<string>)
    ensures |r| == |specs| && forall k :: 0 <= k < |specs| ==> r[k] == specs[k].variable
  {
    seq(|specs|, k requires 0 <= k < |specs| => specs[k].variable)
  }

  function PairsOf(specs: seq<ToggleSpec>): (r: seq<(string, string)>)
    ensures |r| == |specs| && forall k :: 0 <= k < |specs| ==> r[k] == (specs[k].variable, specs[k].key)
  {
    seq(|specs|, k requires 0 <= k < |specs| => (specs[k].variable, specs[k].key))
  }

  /** The rewriting steps `apply` runs before the cleanup. */
  datatype Step = WrapStep | DeclareStep | KeysStep

  function RunStep(lines: seq<string>, specs: seq<ToggleSpec>, st: Step): seq<string> {
    match st
    case WrapStep => WrapAll(lines, SortDesc(specs, ApproxKey))
    case DeclareStep => InsertConstants(lines, VarsOf(specs))
    case KeysStep => InsertKeys(lines, PairsOf(specs))
  }

  /** The steps run one after the other. */
  function RunSteps(lines: seq<string>, specs: seq<ToggleSpec>, steps: seq<Step>): seq<string>
    decreases |steps|
  {
    if steps == [] then lines
    else RunStep(RunSteps(lines, specs, steps[..|steps| - 1]), specs, steps[|steps| - 1])
  }

  /** With pending specs the draw lines are wrapped, then the persist
      declarations and the key sections are added; without, nothing is. */
  function PrepSteps(specs: seq<ToggleSpec>): seq<Step> {
    if specs == [] then [] else [WrapStep, DeclareStep, KeysStep]
  }

  /** The lines before the final cleanup. */
  function Prepared(lines: seq<string>, specs: seq<ToggleSpec>): seq<string> {
    RunSteps(lines, specs, PrepSteps(specs))
  }

  /** What `apply` writes: the prepared lines, cleaned up. */
  function ApplyOutput(lines: seq<string>, specs: seq<ToggleSpec>): seq<string> {
    PruneSpec(Prepared(lines, specs))
  }

  /** One more step at the end runs after the others. */
  lemma RunStepsSnoc(lines: seq<string>, specs: seq<ToggleSpec>, steps: seq<Step>, st: Step, prev: seq<string>)
    requires prev == RunSteps(lines, specs, steps)
    ensures RunSteps(lines, specs, steps + [st]) == RunStep(prev, specs, st)
  {
    assert (steps + [st])[..|steps|] == steps;
  }

  /** With pending specs, the prepared lines are what the three steps give
      one after the other. */
  lemma PreparedFold(lines: seq<string>, specs: seq<ToggleSpec>, w: seq<string>, c: seq<string>, k: seq<string>)
    requires specs != []
    requires w == RunStep(lines, specs, WrapStep)
    requires c == RunStep(w, specs, DeclareStep)
    requires k == RunStep(c, specs, KeysStep)
    ensures Prepared(lines, specs) == k
  {
    RunStepsSnoc(lines, specs, [], WrapStep, lines);
    assert [] + [WrapStep] == [WrapStep];
    RunStepsSnoc(lines, specs, [WrapStep], DeclareStep, w);
    assert [WrapStep] + [DeclareStep] == [WrapStep, DeclareStep];
    RunStepsSnoc(lines, specs, [WrapStep, DeclareStep], KeysStep, c);
    assert [WrapStep, DeclareStep] + [KeysStep] == PrepSteps(specs);
  }

  /** `apply`: nothing is written when there is nothing to do or no path was
      typed. */
  function ApplyResult(lines: seq<string>, specs: seq<ToggleSpec>, modified: bool, path: string): Option<seq<string>> {
    if (specs == [] && !modified) || Strip(path) == "" then None else Some(ApplyOutput(lines, specs))
  }

  /** The written file is the prepared one with lines deleted, and no key
      section is left whose cycle variable no guard of the prepared file
      uses. */
  lemma ApplyOutputPruned(lines: seq<string>, specs: seq<ToggleSpec>)
    ensures var pre := Prepared(lines, specs);
            IsSubseq(ApplyOutput(lines, specs), pre) &&
            forall k :: 0 <= k < |ApplyOutput(lines, specs)| ==>
              Clean(PScan(ApplyOutput(lines, specs)), UsedIn(pre), k)
  {
    PruneSpecProperties(Prepared(lines, specs));
  }

  /** With no pending specs (only unwrapping was done), `apply` only deletes
      lines of the working copy. */
  lemma ApplyWithoutSpecs(lines: seq<string>)
    ensures IsSubseq(ApplyOutput(lines, []), lines)
  {
    PruneSpecProperties(lines);
  }

  /** `parse_draw` marks an entry `existing` exactly when it is a simple
      toggle. */
  lemma ParseMarks(lines: seq<string>, keyVars: set<string>)
    ensures var vs := ParseSpec(lines, keyVars);
            forall k :: 0 <= k < |vs| ==> (vs[k].existing <==> vs[k].status == Simple)
  {
    var vs := ParseSpec(lines, keyVars);
    forall k | 0 <= k < |vs| ensures vs[k].existing <==> vs[k].status == Simple {
      ParseEntryToggle(lines, keyVars, k);
    }
  }

  // ---------------------------------------------------------------------
  // The application.

  class App {
    /** The working copy of the file. */
    var lines: seq<string>
    var entries: seq<DrawEntry>
    var specs: seq<ToggleSpec>
    /** The variables that already have key sections. */
    var keyVars: set<string>
    /** An unwrap was done that no spec accounts for. */
    var modified: bool

    /** The entries are distinct objects, and each is marked `existing`
        exactly when it is a simple toggle. */
    predicate Valid()
      reads this, entries
    {
      (forall k, l :: 0 <= k < l < |entries| ==> entries[k] != entries[l]) &&
      (forall k :: 0 <= k < |entries| ==> (entries[k].existing <==> entries[k].status == Simple))
    }

    function StateOf(): State
      reads this, entries
    {
      State(lines, Views(entries), specs, modified)
    }

    constructor ()
      ensures Valid() && lines == [] && entries == [] && specs == [] && keyVars == {} && !modified
    {
      lines := [];
      entries := [];
      specs := [];
      keyVars := {};
      modified := false;
    }

    /** `scan`, given the file's lines (`None` when the path names no file). */
    method Scan(file: Option<seq<string>>)
      requires Valid()
      modifies this
      ensures Valid()
      ensures file.None? ==> lines == old(lines) && entries == old(entries) && specs == old(specs) &&
                             keyVars == old(keyVars) && modified == old(modified)
      ensures file.Some? ==>
                lines == file.value && specs == [] && !modified &&
                (forall v :: v in keyVars <==> exists i :: 0 <= i < |lines| && DeclaresKeyVar(KeyScan(lines), i, v)) &&
                Views(entries) == ParseSpec(lines, keyVars) &&
                forall k :: 0 <= k < |entries| ==> fresh(entries[k])
    {
      if file.None? {
        return;
      }
      var kv, es := Load(file.value);
      lines := file.value;
      keyVars := kv;
      entries := es;
      specs := [];
      modified := false;
    }

    /** What `scan` reads from the file: the variables with key sections and
        the draw entries. */
    static method Load(lines: seq<string>) returns (kv: set<string>, es: seq<DrawEntry>)
      ensures forall v :: v in kv <==> exists i :: 0 <= i < |lines| && DeclaresKeyVar(KeyScan(lines), i, v)
      ensures Views(es) == ParseSpec(lines, kv)
      ensures forall k :: 0 <= k < |es| ==> fresh(es[k])
      ensures forall k, l :: 0 <= k < l < |es| ==> es[k] != es[l]
      ensures forall k :: 0 <= k < |es| ==> (es[k].existing <==> es[k].status == Simple)
    {
      kv := FindKeyVars(lines);
      es := ParseDraw(lines, kv);
      ParseMarks(lines, kv);
      assert forall k :: 0 <= k < |es| ==> Views(es)[k] == es[k].View();
    }

    /** The search of `delete_existing` for the first draw line in the span. */
    static method FindFirstDraw(lines: seq<string>, a: nat, b: nat) returns (r: Option<nat>)
      ensures r == FirstDraw(lines, a, b)
    {
      var p := a;
      while p < b && p < |lines|
        invariant a <= p
        invariant FirstDraw(lines, p, b) == FirstDraw(lines, a, b)
        decreases b - p
      {
        if IsDrawLine(lines[p]) {
          return Some(p);
        }
        p := p + 1;
      }
      return None;
    }

    /** The comment line `delete_existing` keeps: the line above the first
        draw line of the span, when it lies in the span and is a comment. */
    static method FindRestoredComment(lines: seq<string>, idx: nat, end: nat) returns (commentLine: Option<string>)
      ensures commentLine == RestoredComment(lines, idx, end)
    {
      var drawIdx := FindFirstDraw(lines, idx, end + 1);
      commentLine := None;
      if drawIdx.Some? && drawIdx.value as int - 1 >= idx {
        var prev := lines[drawIdx.value - 1];
        if IsComment(prev) {
          commentLine := Some(prev);
        }
      }
    }

    /** `n` times `lines.pop(idx)`; the flag reports the `IndexError` of a
        pop past the end, with the lines popped so far gone. */
    static method PopSpan(lines: seq<string>, idx: nat, n: nat) returns (out: seq<string>, raised: bool)
      ensures raised <==> n > 0 && idx + n > |lines|
      ensures raised ==> out == if idx < |lines| then lines[..idx] else lines
      ensures !raised ==> out == if n > 0 then lines[..idx] + lines[idx + n..] else lines
    {
      out := lines;
      var k := 0;
      while k < n
        invariant 0 <= k <= n
        invariant k == 0 ==> out == lines
        invariant k > 0 ==> idx + k <= |lines| && out == lines[..idx] + lines[idx + k..]
      {
        if idx >= |out| {
          // IndexError: pop index out of range
          return out, true;
        }
        out := out[..idx] + out[idx + 1..];
        k := k + 1;
      }
      return out, false;
    }

    /** The line edits of `delete_existing` for the guard span `idx..end`. */
    static method EditSpan(lines: seq<string>, idx: nat, end: nat, drawline: string)
      returns (out: seq<string>, at: nat, raised: bool)
      ensures Span(out, at, raised) == UnwrapSpan(lines, idx, end, drawline)
    {
      var commentLine := FindRestoredComment(lines, idx, end);
      out, raised := PopSpan(lines, idx, PopCount(idx, end));
      at := idx;
      if raised {
        return;
      }
      if commentLine.Some? {
        out := Insert(out, at, commentLine.value);
        at := at + 1;
      }
      out := Insert(out, at, drawline);
    }

    /** `delete_existing(entry)`; `raised` reports the `IndexError` of a pop
        past the end of the working copy. */
    method DeleteExisting(entry: DrawEntry) returns (raised: bool)
      modifies this, entry
      ensures Unwrap(lines, entry.View(), raised) == DeleteView(old(lines), old(entry.View()))
      ensures entries == old(entries) && specs == old(specs) && keyVars == old(keyVars) && modified == old(modified)
    {
      if !entry.existing {
        return false;
      }
      if entry.ifStart.None? || entry.ifEnd.None? {
        entry.existing := false;
        entry.status := NoToggle;
        entry.variable := None;
        return false;
      }
      var out, at;
      out, at, raised := EditSpan(lines, entry.ifStart.value, entry.ifEnd.value, entry.drawline);
      lines := out;
      if raised {
        return;
      }
      entry.existing := false;
      entry.status := NoToggle;
      entry.variable := None;
      entry.ifStart := None;
      entry.ifEnd := None;
      entry.lineIdx := at;
    }

    /** `remove_toggle` for the selected entry positions `sel`. */
    method RemoveToggle(sel: seq<nat>) returns (raised: bool)
      requires Valid() && Selects(sel, |entries|)
      modifies this, entries
      ensures Valid() && entries == old(entries) && specs == old(specs) && keyVars == old(keyVars)
      ensures var p := RemoveFrom(old(lines), old(Views(entries)), sel, 0, false);
              lines == p.lines && Views(entries) == p.views && raised == p.raised &&
              modified == (old(modified) || (p.changed && !p.raised))
    {
      ghost var total := RemoveFrom(lines, Views(entries), sel, 0, false);
      var changed := false;
      var k := 0;
      while k < |sel|
        invariant 0 <= k <= |sel|
        invariant Valid() && entries == old(entries) && specs == old(specs) && keyVars == old(keyVars)
        invariant modified == old(modified)
        invariant RemoveFrom(lines, Views(entries), sel, k, changed) == total
      {
        ghost var ls, vs := lines, Views(entries);
        var entry := entries[sel[k]];
        assert vs[sel[k]] == entry.View();
        if entry.status != Mixed && entry.existing {
          raised := Unwrap1(sel[k]);
          if raised {
            return;
          }
          changed := true;
        }
        k := k + 1;
      }
      if changed {
        modified := true;
      }
      raised := false;
    }

    /** `delete_existing` on the entry at position `i`, seen on the list of
        entry views. */
    method Unwrap1(i: nat) returns (raised: bool)
      requires Valid() && i < |entries|
      modifies this, entries[i]
      ensures Valid() && entries == old(entries) && specs == old(specs) && keyVars == old(keyVars) && modified == old(modified)
      ensures var u := DeleteView(old(lines), old(entries[i].View()));
              lines == u.lines && raised == u.raised && Views(entries) == old(Views(entries))[i := u.entry]
    {
      ghost var vs := Views(entries);
      DeleteKeepsMarks(lines, entries[i].View());
      raised := DeleteExisting(entries[i]);
      assert forall j :: 0 <= j < |entries| && j != i ==> entries[j] != entries[i];
    }

    /** The replace step of `add_toggle`: every selected existing entry is
        unwrapped, until an `IndexError`. */
    method ReplaceSelected(sel: seq<nat>) returns (raised: bool)
      requires Valid() && Selects(sel, |entries|)
      modifies this, entries
      ensures Valid() && entries == old(entries) && specs == old(specs) && keyVars == old(keyVars)
      ensures modified == old(modified)
      ensures var p := ReplaceFrom(old(lines), old(Views(entries)), sel, 0);
              lines == p.lines && Views(entries) == p.views && raised == p.raised
    {
      var k := 0;
      while k < |sel|
        invariant 0 <= k <= |sel|
        invariant Valid() && entries == old(entries) && specs == old(specs) && keyVars == old(keyVars)
        invariant modified == old(modified)
        invariant ReplaceFrom(lines, Views(entries), sel, k) == ReplaceFrom(old(lines), old(Views(entries)), sel, 0)
      {
        if entries[sel[k]].existing {
          raised := Unwrap1(sel[k]);
          if raised {
            return;
          }
        }
        k := k + 1;
      }
      raised := false;
    }

    /** `add_toggle` for the selected positions `sel`, with the answers to the
        replace confirmation and to the variable and key dialogs (`None` for
        a cancelled dialog). */
    method AddToggle(sel: seq<nat>, confirm: bool, varAnswer: Option<string>, keyAnswer: Option<string>)
      returns (raised: bool)
      requires Valid() && Selects(sel, |entries|)
      modifies this, entries
      ensures Valid() && entries == old(entries) && keyVars == old(keyVars)
      ensures (StateOf(), raised) == AddSpec(old(StateOf()), sel, confirm, varAnswer, keyAnswer)
    {
      ghost var st := StateOf();
      raised := false;
      if sel == [] {
        return;
      }
      var replace := AnyExisting(Views(entries), sel);
      if replace && !confirm {
        return;
      }
      if replace {
        raised := ReplaceSelected(sel);
        if raised {
          return;
        }
        modified := true;
      }
      ghost var p := ReplaceStep(st, sel);
      assert StateOf() == st.(lines := p.lines, views := p.views, modified := st.modified || p.changed);
      Enqueue(sel, varAnswer, keyAnswer);
    }

    /** The end of `add_toggle`: the specs for the selection are queued when
        both dialogs were answered. */
    method Enqueue(sel: seq<nat>, varAnswer: Option<string>, keyAnswer: Option<string>)
      requires Valid() && Selects(sel, |entries|)
      modifies this
      ensures Valid() && entries == old(entries) && keyVars == old(keyVars)
      ensures StateOf() == Queue(old(StateOf()), sel, varAnswer, keyAnswer)
    {
      if !Answered(varAnswer) || !Answered(keyAnswer) {
        return;
      }
      var added := QueueSpecs(Views(entries), sel, Strip(varAnswer.value), Strip(keyAnswer.value));
      specs := specs + added;
    }

    /** The loop of `add_toggle` that queues one spec per selected entry. */
    static method QueueSpecs(vs: seq<EntryView>, sel: seq<nat>, v: string, key: string) returns (added: seq<ToggleSpec>)
      requires Selects(sel, |vs|)
      ensures added == NewSpecs(vs, sel, v, key)
    {
      added := [];
      var k := 0;
      while k < |sel|
        invariant 0 <= k <= |sel|
        invariant added == NewSpecs(vs, sel[..k], v, key)
      {
        added := added + [SpecFor(vs[sel[k]], v, key)];
        assert sel[..k + 1] == sel[..k] + [sel[k]];
        k := k + 1;
      }
      assert sel[..|sel|] == sel;
    }

    /** One rewriting step of `apply`. */
    static method RunOneStep(lines: seq<string>, specs: seq<ToggleSpec>, st: Step) returns (out: seq<string>)
      ensures out == RunStep(lines, specs, st)
    {
      match st {
        case WrapStep => out := WrapDraw(lines, specs);
        case DeclareStep => out := InsertConstants(lines, VarsOf(specs));
        case KeysStep => out := InsertKeys(lines, PairsOf(specs));
      }
    }

    /** The rewriting steps of `apply`: with pending specs the draw lines are
        wrapped and the declarations and key sections added; then the unused
        toggles are pruned. */
    static method RunPipeline(lines: seq<string>, specs: seq<ToggleSpec>) returns (out: seq<string>)
      ensures out == ApplyOutput(lines, specs)
    {
      var pre := lines;
      if specs != [] {
        var w := RunOneStep(lines, specs, WrapStep);
        var c := RunOneStep(w, specs, DeclareStep);
        pre := RunOneStep(c, specs, KeysStep);
        PreparedFold(lines, specs, w, c, pre);
      }
      out := PruneUnusedToggles(pre);
    }

    /** `clear_toggle`: drop the pending specs. */
    method ClearPending()
      modifies this
      ensures specs == [] && lines == old(lines) && entries == old(entries) &&
              keyVars == old(keyVars) && modified == old(modified)
    {
      specs := [];
    }

    /** What `apply` writes, computed without touching the application. */
    static method Output(lines: seq<string>, specs: seq<ToggleSpec>, modified: bool, path: string)
      returns (written: Option<seq<string>>)
      ensures written == ApplyResult(lines, specs, modified, path)
    {
      if specs == [] && !modified {
        return None;
      }
      if Strip(path) == "" {
        return None;
      }
      var out := RunPipeline(lines, specs);
      return Some(out);
    }

    /** `apply` for the path typed in the path field. It returns the lines
        written to that file, or `None` when nothing is written; the working
        copy is not updated. */
    method Apply(path: string) returns (written: Option<seq<string>>)
      modifies this
      ensures written == ApplyResult(lines, old(specs), old(modified), path)
      ensures lines == old(lines) && entries == old(entries) && keyVars == old(keyVars)
      ensures written.None? ==> specs == old(specs) && modified == old(modified)
      ensures written.Some? ==> specs == [] && !modified
    {
      written := Output(lines, specs, modified, path);
      if written.Some? {
        modified := false;
        specs := [];
      }
    }
  }
}
