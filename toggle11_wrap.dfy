/** Toggle maker v1.1.0: the text-based re-resolution of a spec's draw line
    (`_find_draw_index`) and the wrap pass (`wrap_draw`), which processes the
    specs from the bottom of the file up. */
module Toggle11Wrap {
  import opened PyText
  import opened IniPatterns
  import opened IniSections
  import opened GuardBlocks
  import opened Toggle11Blocks
  import opened StableSort

  /** A pending toggle: wrap the draw line `drawline` (last seen near line
      `approxIdx`) in a guard on `$variable`, cycled by `key`. The drawn entry's
      comment is carried along but not used by the wrap. */
  datatype ToggleSpec = ToggleSpec(variable: string, key: string, approxIdx: nat,
                                   comment: Option<string>, drawline: string)

  // ---------------------------------------------------------------------
  // `_find_draw_index`

  /** The indices from `i` on whose line strips to `t`, in order. */
  function CandidatesFrom(lines: seq<string>, t: string, i: nat): (c: seq<nat>)
    ensures forall x :: 0 <= x < |c| ==> i <= c[x] < |lines|
    decreases |lines| - i
  {
    if i >= |lines| then []
    else (if Strip(lines[i]) == t then [i] else []) + CandidatesFrom(lines, t, i + 1)
  }

  function Dist(i: nat, a: nat): nat {
    if i >= a then i - a else a - i
  }

  /** Python's `min` with a key: the first element of least distance to `a`. */
  function MinDist(c: seq<nat>, a: nat): (r: nat)
    requires |c| > 0
    ensures r in c
    decreases |c|
  {
    if |c| == 1 then c[0]
    else
      var m := MinDist(c[1..], a);
      if Dist(c[0], a) <= Dist(m, a) then c[0] else m
  }

  /** The current index of the spec's draw line: among the lines that strip to
      the stripped directive, the one nearest the hint. */
  function FindDrawIndex(lines: seq<string>, s: ToggleSpec): (r: Option<nat>)
    ensures r.Some? ==> r.value < |lines|
  {
    var c := CandidatesFrom(lines, Strip(s.drawline), 0);
    if c == [] then None else Some(MinDist(c, s.approxIdx))
  }

  lemma {:induction false} CandidatesExact(lines: seq<string>, t: string, i: nat)
    ensures forall k :: k in CandidatesFrom(lines, t, i) <==> i <= k < |lines| && Strip(lines[k]) == t
    decreases |lines| - i
  {
    if i < |lines| {
      CandidatesExact(lines, t, i + 1);
    }
  }

  predicate Increasing(c: seq<nat>) {
    forall x, y :: 0 <= x < y < |c| ==> c[x] < c[y]
  }

  lemma {:induction false} CandidatesIncreasing(lines: seq<string>, t: string, i: nat)
    ensures Increasing(CandidatesFrom(lines, t, i))
    decreases |lines| - i
  {
    if i < |lines| {
      CandidatesIncreasing(lines, t, i + 1);
      var rest := CandidatesFrom(lines, t, i + 1);
      var c := CandidatesFrom(lines, t, i);
      if Strip(lines[i]) == t {
        assert c == [i] + rest;
        forall x, y | 0 <= x < y < |c| ensures c[x] < c[y] {
          assert c[y] == rest[y - 1];
          if x > 0 {
            assert c[x] == rest[x - 1];
          }
        }
      } else {
        assert c == rest;
      }
    }
  }

  lemma {:induction false} MinDistFirst(c: seq<nat>, a: nat)
    requires |c| > 0
    ensures forall x :: 0 <= x < |c| ==> Dist(MinDist(c, a), a) <= Dist(c[x], a)
    ensures exists p :: 0 <= p < |c| && c[p] == MinDist(c, a) &&
                        forall q :: 0 <= q < p ==> Dist(c[q], a) > Dist(c[p], a)
    decreases |c|
  {
    if |c| == 1 {
      assert c[0] == MinDist(c, a);
    } else {
      var m := MinDist(c[1..], a);
      MinDistFirst(c[1..], a);
      forall x | 1 <= x < |c| ensures Dist(m, a) <= Dist(c[x], a) {
        assert c[x] == c[1..][x - 1];
      }
      if Dist(c[0], a) > Dist(m, a) {
        var p :| 0 <= p < |c[1..]| && c[1..][p] == m &&
                 forall q :: 0 <= q < p ==> Dist(c[1..][q], a) > Dist(c[1..][p], a);
        assert c[p + 1] == m;
        forall q | 0 <= q < p + 1 ensures Dist(c[q], a) > Dist(c[p + 1], a) {
          if q > 0 {
            assert c[q] == c[1..][q - 1];
          }
        }
      } else {
        assert c[0] == MinDist(c, a);
      }
    }
  }

  /** Over increasing candidates, the minimum is no farther than any candidate
      and strictly nearer than every earlier one. */
  lemma MinDistNearest(c: seq<nat>, a: nat)
    requires |c| > 0 && Increasing(c)
    ensures var r := MinDist(c, a);
            forall x :: 0 <= x < |c| ==>
              Dist(r, a) <= Dist(c[x], a) && (c[x] < r ==> Dist(r, a) < Dist(c[x], a))
  {
    var r := MinDist(c, a);
    MinDistFirst(c, a);
    var p :| 0 <= p < |c| && c[p] == r && forall q :: 0 <= q < p ==> Dist(c[q], a) > Dist(c[p], a);
    forall x | 0 <= x < |c| && c[x] < r ensures Dist(r, a) < Dist(c[x], a) {
      assert x < p;
    }
  }

  /** No index is found exactly when no line strips to the directive; a found
      index strips to it, no other such line is nearer the hint, and any such
      line before it is strictly farther (a tie goes to the earlier line). */
  lemma FindDrawIndexSpec(lines: seq<string>, s: ToggleSpec)
    ensures var t := Strip(s.drawline);
            FindDrawIndex(lines, s).None? <==> forall i :: 0 <= i < |lines| ==> Strip(lines[i]) != t
    ensures var t := Strip(s.drawline);
            var r := FindDrawIndex(lines, s);
            r.Some? ==>
              Strip(lines[r.value]) == t &&
              forall i :: 0 <= i < |lines| && Strip(lines[i]) == t ==>
                Dist(r.value, s.approxIdx) <= Dist(i, s.approxIdx) &&
                (i < r.value ==> Dist(r.value, s.approxIdx) < Dist(i, s.approxIdx))
  {
    var t := Strip(s.drawline);
    var c := CandidatesFrom(lines, t, 0);
    CandidatesExact(lines, t, 0);
    CandidatesIncreasing(lines, t, 0);
    if c == [] {
      forall i | 0 <= i < |lines| ensures Strip(lines[i]) != t {
        assert i !in c;
      }
    } else {
      var r := MinDist(c, s.approxIdx);
      MinDistNearest(c, s.approxIdx);
      assert r in c;
      forall i | 0 <= i < |lines| && Strip(lines[i]) == t
        ensures Dist(r, s.approxIdx) <= Dist(i, s.approxIdx)
        ensures i < r ==> Dist(r, s.approxIdx) < Dist(i, s.approxIdx)
      {
        assert i in c;
      }
    }
  }

  /** A hint that already points at a matching line is taken as it is. */
  lemma FindDrawIndexAtHint(lines: seq<string>, s: ToggleSpec)
    requires s.approxIdx < |lines| && Strip(lines[s.approxIdx]) == Strip(s.drawline)
    ensures FindDrawIndex(lines, s) == Some(s.approxIdx)
  {
    FindDrawIndexSpec(lines, s);
    assert Dist(s.approxIdx, s.approxIdx) == 0;
  }

  // ---------------------------------------------------------------------
  // `wrap_draw`

  /** The comment that moves into the guard: the nearest non-blank line above
      the draw line, when it is a comment. */
  function CommentAbove(lines: seq<string>, idx: nat): (r: Option<(nat, string)>)
    requires idx < |lines|
    ensures r.Some? ==> r.value.0 < idx
  {
    var j := NonBlankFrom(lines, idx - 1);
    if j.Some? && IsComment(lines[j.value]) then Some((j.value, lines[j.value])) else None
  }

  /** One spec: re-resolve its draw line and wrap it, or leave the lines alone
      when the directive is not found. */
  function WrapOne(lines: seq<string>, s: ToggleSpec): seq<string> {
    match FindDrawIndex(lines, s)
    case None => lines
    case Some(idx) => Rewrap(lines, idx, s.variable, CommentAbove(lines, idx))
  }

  /** The specs, applied one after the other. */
  function WrapAll(lines: seq<string>, order: seq<ToggleSpec>): seq<string>
    decreases |order|
  {
    if order == [] then lines else WrapAll(WrapOne(lines, order[0]), order[1..])
  }

  function ApproxKey(s: ToggleSpec): int {
    s.approxIdx
  }

  /** `wrap_draw`: the specs in descending `approxIdx` (stable), each wrapped in
      turn on the list as the earlier ones left it. */
  method WrapDraw(lines: seq<string>, specs: seq<ToggleSpec>) returns (out: seq<string>)
    ensures out == WrapAll(lines, SortDesc(specs, ApproxKey))
  {
    var order := SortDesc(specs, ApproxKey);
    out := lines;
    var k := 0;
    while k < |order|
      invariant 0 <= k <= |order|
      invariant WrapAll(out, order[k..]) == WrapAll(lines, order)
    {
      var next := WrapSpec(out, order[k]);
      WrapAllStep(out, order, k, next);
      out := next;
      k := k + 1;
    }
    assert order[|order|..] == [];
  }

  lemma WrapAllStep(lines: seq<string>, order: seq<ToggleSpec>, k: nat, next: seq<string>)
    requires k < |order| && next == WrapOne(lines, order[k])
    ensures WrapAll(lines, order[k..]) == WrapAll(next, order[k + 1..])
  {
    assert order[k..][0] == order[k] && order[k..][1..] == order[k + 1..];
  }

  /** The body of the loop for one spec. */
  method WrapSpec(lines: seq<string>, s: ToggleSpec) returns (out: seq<string>)
    ensures out == WrapOne(lines, s)
  {
    out := lines;
    var found := FindDrawIndex(lines, s);
    if found.Some? {
      var idx := found.value;
      var moved := FindMovedComment(lines, idx);
      out := RewrapLines(lines, idx, s.variable, moved);
    }
  }

  /** The walk up over blank lines to the comment that moves with the draw. */
  method FindMovedComment(lines: seq<string>, idx: nat) returns (moved: Option<(nat, string)>)
    requires idx < |lines|
    ensures moved == CommentAbove(lines, idx)
  {
    var j: int := idx as int - 1;
    while j >= 0 && Strip(lines[j]) == []
      invariant -1 <= j < idx
      invariant NonBlankFrom(lines, j) == NonBlankFrom(lines, idx as int - 1)
    {
      j := j - 1;
    }
    moved := None;
    if j >= 0 && StartsWith(Strip(lines[j]), ";") {
      moved := Some((j as nat, lines[j]));
    }
  }

  // ---------------------------------------------------------------------
  // Properties of the wrap pass.

  /** A comment moves with the draw line exactly when the nearest non-blank
      line above it is a comment; only blank lines lie between the two. */
  lemma CommentAboveSpec(lines: seq<string>, idx: nat)
    requires idx < |lines|
    ensures var m := CommentAbove(lines, idx);
            (m.Some? ==> m.value.1 == lines[m.value.0] && IsComment(lines[m.value.0]) &&
                         forall q :: m.value.0 < q < idx ==> Strip(lines[q]) == []) &&
            (m.None? ==> forall j :: 0 <= j < idx && IsComment(lines[j]) ==>
                           exists q :: j < q < idx && Strip(lines[q]) != [])
  {
    NonBlankFromSpec(lines, idx as int - 1);
    var r := NonBlankFrom(lines, idx as int - 1);
    if CommentAbove(lines, idx).None? {
      forall j | 0 <= j < idx && IsComment(lines[j]) ensures exists q :: j < q < idx && Strip(lines[q]) != [] {
        assert Strip(lines[j]) != [];
        assert r.Some?;
        assert r.value != j;
        assert j < r.value;
      }
    }
  }

  /** A spec leaves the lines as they are exactly when no line strips to its
      directive; otherwise they grow by two. */
  lemma WrapOneSkipped(lines: seq<string>, s: ToggleSpec)
    ensures WrapOne(lines, s) == lines <==> forall i :: 0 <= i < |lines| ==> Strip(lines[i]) != Strip(s.drawline)
    ensures WrapOne(lines, s) != lines ==> |WrapOne(lines, s)| == |lines| + 2
  {
    FindDrawIndexSpec(lines, s);
    var f := FindDrawIndex(lines, s);
    if f.Some? {
      RewrapShape(lines, f.value, s.variable, CommentAbove(lines, f.value));
    }
  }

  /** Lines with the same stripped text are classified alike. */
  lemma SameStripSameLine(a: string, b: string)
    requires Strip(a) == Strip(b)
    ensures BlockLineOf(a) == BlockLineOf(b) && (IsHeader(a) <==> IsHeader(b))
  {
  }

  /** A found directive is replaced by its guard block: earlier lines stay,
      the block follows at the moved comment (or the draw line), then the
      rest in order. */
  lemma WrapOneShape(lines: seq<string>, s: ToggleSpec)
    requires FindDrawIndex(lines, s).Some?
    ensures var idx := FindDrawIndex(lines, s).value;
            var moved := CommentAbove(lines, idx);
            var at := WrapAt(idx, moved);
            var block := WrapBlock(lines[idx], s.variable, if moved.Some? then Some(moved.value.1) else None);
            var r := WrapOne(lines, s);
            |r| == |lines| + 2 &&
            r[..at] == lines[..at] &&
            r[at..at + |block|] == block &&
            r[at + |block|..] == (if moved.Some? then lines[at + 1..idx] else []) + lines[idx + 1..]
  {
    var idx := FindDrawIndex(lines, s).value;
    RewrapShape(lines, idx, s.variable, CommentAbove(lines, idx));
  }

  /** With an identifier variable that has a key, the block written for a
      spec reads back as a simple toggle of that variable around one draw
      line. */
  lemma WrapOneReadsBack(lines: seq<string>, s: ToggleSpec, keyVars: set<string>)
    requires FindDrawIndex(lines, s).Some?
    requires IsIdent(s.variable) && s.variable in keyVars
    requires !IsHeader(s.drawline) && BlockLineOf(s.drawline).body == BodyDraw
    ensures var idx := FindDrawIndex(lines, s).value;
            var moved := CommentAbove(lines, idx);
            var block := WrapBlock(lines[idx], s.variable, if moved.Some? then Some(moved.value.1) else None);
            Detect(BlockScan(block), keyVars, 0, map[]) == map[|block| - 2 := Toggle(s.variable, 0, |block| - 1, Simple)]
  {
    var idx := FindDrawIndex(lines, s).value;
    var moved := CommentAbove(lines, idx);
    FoundStrips(lines, s);
    SameStripSameLine(lines[idx], s.drawline);
    MovedIsComment(lines, idx);
    WrappedIsSimple(lines[idx], s.variable, if moved.Some? then Some(moved.value.1) else None, keyVars);
  }

  lemma FoundStrips(lines: seq<string>, s: ToggleSpec)
    requires FindDrawIndex(lines, s).Some?
    ensures Strip(lines[FindDrawIndex(lines, s).value]) == Strip(s.drawline)
  {
    FindDrawIndexSpec(lines, s);
  }

  lemma MovedIsComment(lines: seq<string>, idx: nat)
    requires idx < |lines|
    ensures var m := CommentAbove(lines, idx);
            m.Some? ==> StartsWith(Strip(m.value.1), ";")
  {
  }

  /** The wrapped directive is still found by text afterwards, so a second
      spec for the same draw line wraps it again, inside the first guard. */
  lemma WrapAgainFinds(lines: seq<string>, s: ToggleSpec, s2: ToggleSpec)
    requires FindDrawIndex(lines, s).Some? && Strip(s2.drawline) == Strip(s.drawline)
    ensures FindDrawIndex(WrapOne(lines, s), s2).Some?
  {
    var idx := FindDrawIndex(lines, s).value;
    var moved := CommentAbove(lines, idx);
    var block := WrapBlock(lines[idx], s.variable, if moved.Some? then Some(moved.value.1) else None);
    var at := WrapAt(idx, moved);
    var r := WrapOne(lines, s);
    FoundStrips(lines, s);
    WrapOneShape(lines, s);
    BlockDrawLine(lines[idx], s.variable, if moved.Some? then Some(moved.value.1) else None);
    assert r[at + |block| - 2] == block[|block| - 2];
    FindDrawIndexSpec(r, s2);
  }

  /** The draw directive inside a block strips to the original line's. */
  lemma BlockDrawLine(drawline: string, v: string, comment: Option<string>)
    ensures var b := WrapBlock(drawline, v, comment);
            Strip(b[|b| - 2]) == Strip(drawline)
  {
    WrapBlockParts(drawline, v, comment);
    BodyDrawStrip(drawline);
  }

  /** How many specs find their directive when applied in this order. */
  function Applied(lines: seq<string>, order: seq<ToggleSpec>): nat
    decreases |order|
  {
    if order == [] then 0
    else (if FindDrawIndex(lines, order[0]).Some? then 1 else 0) + Applied(WrapOne(lines, order[0]), order[1..])
  }

  /** Each applied spec adds two lines, a skipped one none. */
  lemma {:induction false} WrapAllLength(lines: seq<string>, order: seq<ToggleSpec>)
    ensures |WrapAll(lines, order)| == |lines| + 2 * Applied(lines, order)
    ensures Applied(lines, order) <= |order|
    decreases |order|
  {
    if order != [] {
      var w := WrapOne(lines, order[0]);
      if FindDrawIndex(lines, order[0]).Some? {
        WrapOneShape(lines, order[0]);
      }
      WrapAllLength(w, order[1..]);
    }
  }

  /** `wrap_draw` visits the specs from the largest hint down, and specs with
      equal hints in the order they were added. */
  lemma WrapDrawOrder(specs: seq<ToggleSpec>)
    ensures IsDescending(SortDesc(specs, ApproxKey), ApproxKey)
    ensures multiset(SortDesc(specs, ApproxKey)) == multiset(specs)
    ensures forall k :: WithKey(SortDesc(specs, ApproxKey), ApproxKey, k) == WithKey(specs, ApproxKey, k)
  {
    SortDescSorted(specs, ApproxKey);
    forall k ensures WithKey(SortDesc(specs, ApproxKey), ApproxKey, k) == WithKey(specs, ApproxKey, k) {
      SortDescStable(specs, ApproxKey, k);
    }
  }

  /** A wrapped draw line reads back, on its own, as a simple (`E`) guard span
      of its variable: the detector records exactly its draw line. */
  lemma WrappedIsSimple(drawline: string, v: string, comment: Option<string>, keyVars: set<string>)
    requires IsIdent(v) && v in keyVars
    requires !IsHeader(drawline) && BlockLineOf(drawline).body == BodyDraw
    requires comment.Some? ==> StartsWith(Strip(comment.value), ";")
    ensures var b := WrapBlock(drawline, v, comment);
            Detect(BlockScan(b), keyVars, 0, map[]) == map[|b| - 2 := Toggle(v, 0, |b| - 1, Simple)]
  {
    var raw := RStripNewlines(drawline);
    var indent := Indent(raw);
    LStripSuffix(raw);
    WrapBlockParts(drawline, v, comment);
    DrawRead(drawline);
    if comment.Some? {
      WrappedCommentIsSimple(indent, BodyDrawLine(indent, Strip(raw)), v, comment.value, keyVars);
    } else {
      WrappedBareIsSimple(indent, BodyDrawLine(indent, Strip(raw)), v, keyVars);
    }
  }

  lemma WrapBlockParts(drawline: string, v: string, comment: Option<string>)
    ensures var raw := RStripNewlines(drawline);
            var indent := Indent(raw);
            var dr := BodyDrawLine(indent, Strip(raw));
            WrapBlock(drawline, v, comment) ==
              if comment.Some? then [GuardLine(indent, v), MovedComment(indent, comment.value), dr, EndifLine(indent)]
              else [GuardLine(indent, v), dr, EndifLine(indent)]
  {
  }

  lemma WrappedCommentIsSimple(indent: string, dr: string, v: string, c: string, keyVars: set<string>)
    requires AllSpace(indent) && IsIdent(v) && v in keyVars && StartsWith(Strip(c), ";")
    requires var dl := BlockLineOf(dr); dl.body == BodyDraw && !dl.header && !dl.endif
    ensures Detect(BlockScan([GuardLine(indent, v), MovedComment(indent, c), dr, EndifLine(indent)]), keyVars, 0, map[])
            == map[2 := Toggle(v, 0, 3, Simple)]
  {
    GuardRead(indent, v);
    EndifRead(indent);
    MovedCommentStrip(indent, c);
    CommentRead(MovedComment(indent, c));
    SimpleFour(GuardLine(indent, v), MovedComment(indent, c), dr, EndifLine(indent), v, keyVars);
  }

  lemma WrappedBareIsSimple(indent: string, dr: string, v: string, keyVars: set<string>)
    requires AllSpace(indent) && IsIdent(v) && v in keyVars
    requires var dl := BlockLineOf(dr); dl.body == BodyDraw && !dl.header && !dl.endif
    ensures Detect(BlockScan([GuardLine(indent, v), dr, EndifLine(indent)]), keyVars, 0, map[])
            == map[1 := Toggle(v, 0, 2, Simple)]
  {
    GuardRead(indent, v);
    EndifRead(indent);
    SimpleThree(GuardLine(indent, v), dr, EndifLine(indent), v, keyVars);
  }

  lemma GuardRead(indent: string, v: string)
    requires AllSpace(indent) && IsIdent(v)
    ensures BlockLineOf(GuardLine(indent, v)).guard == Some(v)
  {
    GuardLineMatches(indent, v);
  }

  lemma EndifRead(indent: string)
    requires AllSpace(indent)
    ensures BlockLineOf(EndifLine(indent)).endif
  {
    EndifLineMatches(indent);
  }

  /** The re-indented draw directive is still a draw line. */
  lemma DrawRead(drawline: string)
    requires !IsHeader(drawline) && BlockLineOf(drawline).body == BodyDraw
    ensures var raw := RStripNewlines(drawline);
            var dl := BlockLineOf(BodyDrawLine(Indent(raw), Strip(raw)));
            dl.body == BodyDraw && !dl.header && !dl.endif
  {
    var raw := RStripNewlines(drawline);
    BodyDrawStrip(drawline);
    ContainsLength(Strip(drawline), "drawindexed");
    BodyDrawRead(drawline, BodyDrawLine(Indent(raw), Strip(raw)));
  }

  lemma SimpleThree(g: string, dr: string, en: string, v: string, keyVars: set<string>)
    requires v in keyVars && BlockLineOf(g).guard == Some(v) && BlockLineOf(en).endif
    requires var dl := BlockLineOf(dr); dl.body == BodyDraw && !dl.header && !dl.endif
    ensures Detect(BlockScan([g, dr, en]), keyVars, 0, map[]) == map[1 := Toggle(v, 0, 2, Simple)]
  {
    ScanThree(g, dr, en);
    SimpleLines([BlockLineOf(g), BlockLineOf(dr), BlockLineOf(en)], v, keyVars);
  }

  lemma SimpleFour(g: string, cm: string, dr: string, en: string, v: string, keyVars: set<string>)
    requires v in keyVars && BlockLineOf(g).guard == Some(v) && BlockLineOf(en).endif
    requires var cl := BlockLineOf(cm); cl.body == Quiet && !cl.header && !cl.endif
    requires var dl := BlockLineOf(dr); dl.body == BodyDraw && !dl.header && !dl.endif
    ensures Detect(BlockScan([g, cm, dr, en]), keyVars, 0, map[]) == map[2 := Toggle(v, 0, 3, Simple)]
  {
    ScanFour(g, cm, dr, en);
    SimpleLines([BlockLineOf(g), BlockLineOf(cm), BlockLineOf(dr), BlockLineOf(en)], v, keyVars);
  }

  lemma ScanThree(a: string, b: string, c: string)
    ensures BlockScan([a, b, c]) == [BlockLineOf(a), BlockLineOf(b), BlockLineOf(c)]
  {
  }

  lemma ScanFour(a: string, b: string, c: string, d: string)
    ensures BlockScan([a, b, c, d]) == [BlockLineOf(a), BlockLineOf(b), BlockLineOf(c), BlockLineOf(d)]
  {
  }

  /** The three- and four-line forms of a wrapped block as classified lines. */
  lemma SimpleLines(bl: seq<BlockLine>, v: string, keyVars: set<string>)
    requires |bl| == 3 || |bl| == 4
    requires bl[0].guard == Some(v) && v in keyVars && bl[|bl| - 1].endif
    requires bl[|bl| - 2].body == BodyDraw && !bl[|bl| - 2].header && !bl[|bl| - 2].endif
    requires |bl| == 4 ==> bl[1].body == Quiet && !bl[1].header && !bl[1].endif
    ensures Detect(bl, keyVars, 0, map[]) == map[|bl| - 2 := Toggle(v, 0, |bl| - 1, Simple)]
  {
    SimpleSpan(bl, v, keyVars);
  }

  lemma BodyDrawRead(drawline: string, line: string)
    requires !IsHeader(drawline) && BlockLineOf(drawline).body == BodyDraw
    requires Strip(line) == Strip(drawline) && |Strip(drawline)| >= 11
    ensures BlockLineOf(line).body == BodyDraw && !BlockLineOf(line).header && !BlockLineOf(line).endif
  {
  }

  lemma CommentRead(line: string)
    requires StartsWith(Strip(line), ";")
    ensures BlockLineOf(line).body == Quiet && !BlockLineOf(line).header && !BlockLineOf(line).endif
  {
    var t := Strip(line);
    assert t[0] == ';' by { assert t[..1] == ";"; }
    assert !StartsWith(t, "[") by { assert t[..1] != "["; }
    assert Lower(t)[0] == ';';
  }

  /** A guard, quiet lines, one draw line and an `endif` form a simple span. */
  lemma SimpleSpan(bl: seq<BlockLine>, v: string, keyVars: set<string>)
    requires |bl| >= 3 && bl[0].guard == Some(v) && v in keyVars && bl[|bl| - 1].endif
    requires forall k :: 1 <= k < |bl| - 1 ==> !bl[k].header && !bl[k].endif
    requires forall k :: 1 <= k < |bl| - 2 ==> bl[k].body == Quiet
    requires bl[|bl| - 2].body == BodyDraw
    ensures Detect(bl, keyVars, 0, map[]) == map[|bl| - 2 := Toggle(v, 0, |bl| - 1, Simple)]
  {
    var n := |bl|;
    var d := n - 2;
    EndifFromSkips(bl, 1, n - 1);
    DetectSpan(bl, keyVars, 0, n - 1, map[]);
    OnlyDraw(bl);
    var t := Toggle(v, 0, n - 1, Simple);
    RecordOne(d, t);
  }

  /** The quiet lines and the one draw line of such a span. */
  lemma OnlyDraw(bl: seq<BlockLine>)
    requires |bl| >= 3
    requires forall k :: 1 <= k < |bl| - 2 ==> bl[k].body == Quiet
    requires bl[|bl| - 2].body == BodyDraw
    ensures DrawsIn(bl, 1, |bl| - 1) == [|bl| - 2] && !MixedIn(bl, 1, |bl| - 1)
  {
    var d := |bl| - 2;
    QuietNoDraws(bl, 1, d);
    assert DrawsIn(bl, 1, d + 1) == DrawsIn(bl, 1, d) + [d];
    NotBusy(bl, 1, d + 1);
  }

  lemma NotBusy(bl: seq<BlockLine>, a: nat, b: nat)
    requires a <= b <= |bl|
    requires forall k :: a <= k < b ==> bl[k].body == Quiet || bl[k].body == BodyDraw
    ensures !MixedIn(bl, a, b)
  {
  }

  lemma {:induction false} QuietNoDraws(bl: seq<BlockLine>, a: nat, b: nat)
    requires a <= b <= |bl|
    requires forall k :: a <= k < b ==> bl[k].body == Quiet
    ensures DrawsIn(bl, a, b) == []
    decreases b - a
  {
    if a < b {
      QuietNoDraws(bl, a, b - 1);
    }
  }

  lemma RecordOne(d: nat, t: Toggle)
    ensures Record(map[], [d], t) == map[d := t]
  {
    assert [d][1..] == [];
  }

  lemma {:induction false} EndifFromSkips(bl: seq<BlockLine>, j: nat, e: nat)
    requires j <= e < |bl| && bl[e].endif
    requires forall k :: j <= k < e ==> !bl[k].header && !bl[k].endif
    ensures EndifFrom(bl, j) == Some(e)
    decreases e - j
  {
    if j < e {
      EndifFromSkips(bl, j + 1, e);
    }
  }
}
