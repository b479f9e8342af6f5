/** Transparency maker: the next free shader index (`_scan_existing_shader_index`)
    and the scan of the draw directives of each component (the parse loop of
    `scan_ini`). */
module TransparencyScan {
  import opened PyText
  import opened IniPatterns

  // ---------------------------------------------------------------------
  // The next free shader index.

  /** The largest `N` of a `[CustomShaderTransparencyN]` line among the first
      `n` lines (stripped), or 0 when there is none. */
  function MaxShaderIndex(lines: seq<string>, n: nat): nat
    requires n <= |lines|
  {
    if n == 0 then 0
    else
      var m := MaxShaderIndex(lines, n - 1);
      match ShaderHeader(Strip(lines[n - 1]))
      case Some(i) => if i > m then i else m
      case None => m
  }

  /** It is the maximum: no header exceeds it, and unless it is 0 some header
      carries it. */
  lemma {:induction false} MaxShaderIndexSpec(lines: seq<string>, n: nat)
    requires n <= |lines|
    ensures forall j :: 0 <= j < n && ShaderHeader(Strip(lines[j])).Some? ==>
              ShaderHeader(Strip(lines[j])).value <= MaxShaderIndex(lines, n)
    ensures MaxShaderIndex(lines, n) == 0 ||
            exists j :: 0 <= j < n && ShaderHeader(Strip(lines[j])) == Some(MaxShaderIndex(lines, n))
    decreases n
  {
    if n > 0 {
      MaxShaderIndexSpec(lines, n - 1);
    }
  }

  /** `_scan_existing_shader_index`: a running maximum over the lines, plus one.
      The result is at least 1 and above every index already in the file. */
  method ScanExistingShaderIndex(lines: seq<string>) returns (next: nat)
    ensures next == MaxShaderIndex(lines, |lines|) + 1
    ensures next >= 1
    ensures forall j :: 0 <= j < |lines| && ShaderHeader(Strip(lines[j])).Some? ==>
              ShaderHeader(Strip(lines[j])).value < next
  {
    var maxI := 0;
    var i := 0;
    while i < |lines|
      invariant 0 <= i <= |lines|
      invariant maxI == MaxShaderIndex(lines, i)
    {
      match ShaderHeader(Strip(lines[i])) {
        case Some(idx) =>
          maxI := if idx > maxI then idx else maxI;
        case None =>
      }
      i := i + 1;
    }
    MaxShaderIndexSpec(lines, |lines|);
    next := maxI + 1;
  }

  // ---------------------------------------------------------------------
  // What the scan sees in a line.

  /** `s.lstrip(";")`. */
  function LStripSemicolons(s: string): (r: string)
    ensures |r| <= |s| && r == s[|s| - |r|..]
    ensures forall i :: 0 <= i < |s| - |r| ==> s[i] == ';'
    ensures r == [] || r[0] != ';'
    decreases |s|
  {
    if |s| > 0 && s[0] == ';' then LStripSemicolons(s[1..]) else s
  }

  /** One line as the scan reads it: a comment with its text, a component
      header, an exact three-parameter draw directive, or anything else. */
  datatype ScanKind = Remark(text: string) | Component(n: nat) | Draw(params: Params) | Skip

  function ScanKindOf(line: string): ScanKind {
    var t := Strip(line);
    if StartsWith(Lower(t), ";") then Remark(Strip(LStripSemicolons(t)))
    else
      match ComponentHeader(t)
      case Some(n) => Component(n)
      case None =>
        if StartsWith(Lower(t), "drawindexed") then
          match DrawExact(t)
          case Some(p) => Draw(p)
          case None => Skip
        else Skip
  }

  function ScanKinds(lines: seq<string>): (ks: seq<ScanKind>)
    ensures |ks| == |lines| && forall i :: 0 <= i < |lines| ==> ks[i] == ScanKindOf(lines[i])
  {
    seq(|lines|, i requires 0 <= i < |lines| => ScanKindOf(lines[i]))
  }

  /** A line reads as a draw exactly when, stripped, it is a full
      `drawindexed = a, b, c` directive: such a line is neither a comment nor
      a header, and it passes the `startswith("drawindexed")` test. */
  lemma DrawKind(line: string, p: Params)
    ensures ScanKindOf(line) == Draw(p) <==> DrawExact(Strip(line)) == Some(p)
  {
    var t := Strip(line);
    if DrawExact(t) == Some(p) {
      DrawAtLiteral(t, 0);
      DrawLineStart(t);
    }
  }

  lemma DrawLineStart(t: string)
    requires LiteralCI(t, 0, "drawindexed")
    ensures StartsWith(Lower(t), "drawindexed") && !StartsWith(Lower(t), ";") && ComponentHeader(t).None?
  {
    assert Lower(t)[..11] == Lower(t[0..11]);
    assert Lower(t)[0] == Lower(t[0..11])[0];
  }

  // ---------------------------------------------------------------------
  // The scan loop, one line at a time.

  /** One entry of `component_draws[comp]`. */
  datatype DrawRecord = DrawRecord(params: Params, lineText: string, comment: string)

  /** `current_comp`, `last_comment` and `component_draws` between two lines. */
  datatype ScanState = ScanState(comp: Option<nat>, lastComment: Option<string>, draws: map<nat, seq<DrawRecord>>)

  /** The current component always has its list (`setdefault`). */
  predicate Tracked(st: ScanState) {
    st.comp.Some? ==> st.comp.value in st.draws
  }

  /** `last_comment or ""`. */
  function CommentOr(c: Option<string>): string {
    if c.Some? then c.value else ""
  }

  function ScanStep(st: ScanState, k: ScanKind, line: string): (r: ScanState)
    requires Tracked(st)
    ensures Tracked(r)
  {
    match k
    case Remark(t) => st.(lastComment := Some(t))
    case Component(n) => ScanState(Some(n), None, if n in st.draws then st.draws else st.draws[n := []])
    case Draw(p) =>
      if st.comp.Some? then
        var c := st.comp.value;
        var rec := DrawRecord(p, RStripNewlines(line), CommentOr(st.lastComment));
        ScanState(st.comp, None, st.draws[c := st.draws[c] + [rec]])
      else st
    case Skip => st
  }

  /** The state after the first `n` lines. */
  function ScanUpTo(lines: seq<string>, ks: seq<ScanKind>, n: nat): (st: ScanState)
    requires |ks| == |lines| && n <= |lines|
    ensures Tracked(st)
  {
    if n == 0 then ScanState(None, None, map[])
    else ScanStep(ScanUpTo(lines, ks, n - 1), ks[n - 1], lines[n - 1])
  }

  /** `component_draws` after the scan of `lines`. */
  function ScanDraws(lines: seq<string>): map<nat, seq<DrawRecord>> {
    ScanUpTo(lines, ScanKinds(lines), |lines|).draws
  }

  // ---------------------------------------------------------------------
  // The same, line by line: which component a line belongs to, which draws
  // are recorded, and which comment each carries.

  /** The number of the component header that came last before line `n`;
      other headers do not end a component for the scan. */
  function ScanOwner(ks: seq<ScanKind>, n: nat): Option<nat>
    requires n <= |ks|
  {
    if n == 0 then None
    else if ks[n - 1].Component? then Some(ks[n - 1].n)
    else ScanOwner(ks, n - 1)
  }

  lemma {:induction false} ScanOwnerSpec(ks: seq<ScanKind>, n: nat, c: nat)
    requires n <= |ks|
    ensures ScanOwner(ks, n) == Some(c) <==>
            exists h :: 0 <= h < n && ks[h] == Component(c) && forall m :: h < m < n ==> !ks[m].Component?
    ensures ScanOwner(ks, n).None? <==> forall h :: 0 <= h < n ==> !ks[h].Component?
    decreases n
  {
    if n > 0 {
      ScanOwnerSpec(ks, n - 1, c);
      if ScanOwner(ks, n) == Some(c) && !ks[n - 1].Component? {
        var h :| 0 <= h < n - 1 && ks[h] == Component(c) && forall m :: h < m < n - 1 ==> !ks[m].Component?;
        assert forall m :: h < m < n ==> !ks[m].Component?;
      }
      if !ks[n - 1].Component? && exists h :: 0 <= h < n && ks[h] == Component(c) && forall m :: h < m < n ==> !ks[m].Component? {
        var h :| 0 <= h < n && ks[h] == Component(c) && forall m :: h < m < n ==> !ks[m].Component?;
        assert h < n - 1;
      }
    }
  }

  /** Draw `i` is recorded: it comes after some component header. */
  predicate Recorded(ks: seq<ScanKind>, i: nat)
    requires i < |ks|
  {
    ks[i].Draw? && ScanOwner(ks, i).Some?
  }

  /** A component header or a recorded draw forgets the comment. */
  predicate Resets(ks: seq<ScanKind>, i: nat)
    requires i < |ks|
  {
    ks[i].Component? || Recorded(ks, i)
  }

  /** The last line before `n` that forgets the comment. */
  function LastReset(ks: seq<ScanKind>, n: nat): (r: Option<nat>)
    requires n <= |ks|
    ensures r.Some? ==> r.value < n && Resets(ks, r.value)
  {
    if n == 0 then None
    else if Resets(ks, n - 1) then Some(n - 1)
    else LastReset(ks, n - 1)
  }

  /** The first line the comment of line `n` may come from. */
  function SinceReset(ks: seq<ScanKind>, n: nat): (lo: nat)
    requires n <= |ks|
    ensures lo <= n
  {
    match LastReset(ks, n)
    case Some(i) => i + 1
    case None => 0
  }

  /** No line in between forgets the comment. */
  lemma {:induction false} SinceResetSpec(ks: seq<ScanKind>, n: nat)
    requires n <= |ks|
    ensures forall m :: SinceReset(ks, n) <= m < n ==> !Resets(ks, m)
    decreases n
  {
    if n > 0 && !Resets(ks, n - 1) {
      SinceResetSpec(ks, n - 1);
    }
  }

  /** The latest comment line in `[lo, n)`. */
  function LatestRemark(ks: seq<ScanKind>, lo: nat, n: nat): (r: Option<nat>)
    requires lo <= n <= |ks|
    ensures r.Some? ==> lo <= r.value < n && ks[r.value].Remark?
    decreases n
  {
    if n == lo then None
    else if ks[n - 1].Remark? then Some(n - 1)
    else LatestRemark(ks, lo, n - 1)
  }

  lemma {:induction false} LatestRemarkSpec(ks: seq<ScanKind>, lo: nat, n: nat)
    requires lo <= n <= |ks|
    ensures var r := LatestRemark(ks, lo, n);
            (r.Some? ==> forall m :: r.value < m < n ==> !ks[m].Remark?) &&
            (r.None? ==> forall m :: lo <= m < n ==> !ks[m].Remark?)
    decreases n
  {
    if n > lo && !ks[n - 1].Remark? {
      LatestRemarkSpec(ks, lo, n - 1);
    }
  }

  /** The comment remembered at line `n`: the text of the latest comment line
      since the last reset, if any. */
  function CommentBefore(ks: seq<ScanKind>, n: nat): Option<string>
    requires n <= |ks|
  {
    match LatestRemark(ks, SinceReset(ks, n), n)
    case Some(j) => Some(ks[j].text)
    case None => None
  }

  /** What the scan records for draw line `i`. */
  function RecordAt(lines: seq<string>, ks: seq<ScanKind>, i: nat): DrawRecord
    requires |ks| == |lines| && i < |lines| && ks[i].Draw?
  {
    DrawRecord(ks[i].params, RStripNewlines(lines[i]), CommentOr(CommentBefore(ks, i)))
  }

  /** The records of the draws of component `c` among the first `n` lines, in
      line order. */
  function RecordsOf(lines: seq<string>, ks: seq<ScanKind>, n: nat, c: nat): seq<DrawRecord>
    requires |ks| == |lines| && n <= |lines|
  {
    if n == 0 then []
    else
      RecordsOf(lines, ks, n - 1, c) +
      (if Recorded(ks, n - 1) && ScanOwner(ks, n - 1) == Some(c) then [RecordAt(lines, ks, n - 1)] else [])
  }

  function ComponentsSeen(ks: seq<ScanKind>, n: nat): set<nat>
    requires n <= |ks|
  {
    set h | 0 <= h < n && ks[h].Component? :: ks[h].n
  }

  /** The scan state agrees with the line-by-line reading. */
  predicate ScanAgrees(lines: seq<string>, ks: seq<ScanKind>, n: nat, st: ScanState)
    requires |ks| == |lines| && n <= |lines|
  {
    st.comp == ScanOwner(ks, n) && st.lastComment == CommentBefore(ks, n) &&
    st.draws.Keys == ComponentsSeen(ks, n) &&
    forall c :: c in st.draws ==> st.draws[c] == RecordsOf(lines, ks, n, c)
  }

  /** The scan state after `n` lines is the line-by-line reading: the current
      component is the last component header, the remembered comment is the
      latest comment since the last reset, every component seen has a list,
      and each list holds the recorded draws of that component in order. */
  lemma {:induction false} ScanMatches(lines: seq<string>, ks: seq<ScanKind>, n: nat)
    requires |ks| == |lines| && n <= |lines|
    ensures ScanAgrees(lines, ks, n, ScanUpTo(lines, ks, n))
    decreases n
  {
    if n > 0 {
      ScanMatches(lines, ks, n - 1);
      ScanStepAgrees(lines, ks, n, ScanUpTo(lines, ks, n - 1));
    }
  }

  lemma ScanStepAgrees(lines: seq<string>, ks: seq<ScanKind>, n: nat, st: ScanState)
    requires |ks| == |lines| && 0 < n <= |lines|
    requires Tracked(st) && ScanAgrees(lines, ks, n - 1, st)
    ensures ScanAgrees(lines, ks, n, ScanStep(st, ks[n - 1], lines[n - 1]))
  {
    var r := ScanStep(st, ks[n - 1], lines[n - 1]);
    var i := n - 1;
    SeenStep(ks, n);
    CommentStep(ks, n);
    forall c | c in r.draws ensures r.draws[c] == RecordsOf(lines, ks, n, c) {
      if c !in st.draws {
        RecordsNone(lines, ks, i, c);
      }
    }
  }

  /** How the remembered comment moves on at line `n - 1`. */
  lemma CommentStep(ks: seq<ScanKind>, n: nat)
    requires 0 < n <= |ks|
    ensures CommentBefore(ks, n) ==
            if Resets(ks, n - 1) then None
            else if ks[n - 1].Remark? then Some(ks[n - 1].text)
            else CommentBefore(ks, n - 1)
  {
    if !Resets(ks, n - 1) {
      assert SinceReset(ks, n) == SinceReset(ks, n - 1);
    }
  }

  lemma SeenStep(ks: seq<ScanKind>, n: nat)
    requires 0 < n <= |ks|
    ensures ComponentsSeen(ks, n) == ComponentsSeen(ks, n - 1) + (if ks[n - 1].Component? then {ks[n - 1].n} else {})
  {
  }

  /** The current component is one whose header was seen. */
  lemma {:induction false} OwnerSeen(ks: seq<ScanKind>, n: nat)
    requires n <= |ks|
    ensures ScanOwner(ks, n).Some? ==> ScanOwner(ks, n).value in ComponentsSeen(ks, n)
    decreases n
  {
    if n > 0 {
      SeenStep(ks, n);
      OwnerSeen(ks, n - 1);
    }
  }

  /** A component not seen yet owns no draw. */
  lemma {:induction false} RecordsNone(lines: seq<string>, ks: seq<ScanKind>, n: nat, c: nat)
    requires |ks| == |lines| && n <= |lines| && c !in ComponentsSeen(ks, n)
    ensures RecordsOf(lines, ks, n, c) == []
    decreases n
  {
    if n > 0 {
      SeenStep(ks, n);
      RecordsNone(lines, ks, n - 1, c);
      OwnerSeen(ks, n - 1);
    }
  }

  /** `component_draws` after a scan: one list per component header seen,
      holding the draws recorded under that component in line order. */
  lemma ScanDrawsSpec(lines: seq<string>)
    ensures var ks := ScanKinds(lines);
            var d := ScanDraws(lines);
            d.Keys == ComponentsSeen(ks, |lines|) &&
            forall c :: c in d ==> d[c] == RecordsOf(lines, ks, |lines|, c)
  {
    ScanMatches(lines, ScanKinds(lines), |lines|);
  }
}
