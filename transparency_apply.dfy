/** Transparency maker: the shader section a queued change adds
    (`_build_shader_section`) and the single-pass rewrite of `apply_changes`,
    which comments out each selected draw directive, points it at its shader
    and emits the shader sections when the component ends. */
module TransparencyApply {
  import opened PyText
  import opened IniPatterns

  /** How a change blends: by the texture's alpha, or by four blend factors
      kept as the text that was entered. */
  datatype Blend = TextureAlpha | BlendFactor(f0: string, f1: string, f2: string, f3: string)

  /** One entry of `pending_changes`. */
  datatype Change = Change(component: nat, params: Params, comment: string, blend: Blend, shaderName: string)

  /** The key `pending_map` files a change under. */
  function KeyOf(ch: Change): (nat, Params) {
    (ch.component, ch.params)
  }

  predicate UniqueKeys(cs: seq<Change>) {
    forall i, j :: 0 <= i < j < |cs| ==> KeyOf(cs[i]) != KeyOf(cs[j])
  }

  /** `f"CustomShaderTransparency{n}"`. */
  function ShaderName(n: nat): string {
    "CustomShaderTransparency" + NatToDecimal(n)
  }

  /** The index the shader-index scan reads from a `[name]` header. */
  function NameIndex(name: string): Option<nat> {
    ShaderHeader("[" + name + "]")
  }

  // ---------------------------------------------------------------------
  // `_build_shader_section`.

  function ParamsLine(p: Params): string {
    "drawindexed = " + NatToDecimal(p.a) + ", " + NatToDecimal(p.b) + ", " + NatToDecimal(p.c) + "\n"
  }

  function BlendLines(b: Blend): seq<string> {
    match b
    case TextureAlpha => ["blend = ADD SRC_ALPHA INV_SRC_ALPHA\n"]
    case BlendFactor(f0, f1, f2, f3) =>
      ["blend = ADD BLEND_FACTOR INV_BLEND_FACTOR\n",
       "blend_factor[0] = " + f0 + "\n", "blend_factor[1] = " + f1 + "\n",
       "blend_factor[2] = " + f2 + "\n", "blend_factor[3] = " + f3 + "\n"]
  }

  /** A blank line, the `[name]` header, the comment when there is one, the
      blend lines and the draw directive. */
  function ShaderSection(ch: Change): seq<string> {
    ["\n", "[" + ch.shaderName + "]\n"] +
    (if ch.comment != "" then ["; " + ch.comment + "\n"] else []) +
    BlendLines(ch.blend) + [ParamsLine(ch.params)]
  }

  method BuildShaderSection(ch: Change) returns (out: seq<string>)
    ensures out == ShaderSection(ch)
  {
    out := [];
    out := out + ["\n"];
    out := out + ["[" + ch.shaderName + "]\n"];
    if ch.comment != "" {
      out := out + ["; " + ch.comment + "\n"];
    }
    match ch.blend {
      case TextureAlpha =>
        out := out + ["blend = ADD SRC_ALPHA INV_SRC_ALPHA\n"];
      case BlendFactor(f0, f1, f2, f3) =>
        out := out + ["blend = ADD BLEND_FACTOR INV_BLEND_FACTOR\n"];
        out := out + ["blend_factor[0] = " + f0 + "\n"];
        out := out + ["blend_factor[1] = " + f1 + "\n"];
        out := out + ["blend_factor[2] = " + f2 + "\n"];
        out := out + ["blend_factor[3] = " + f3 + "\n"];
    }
    out := out + [ParamsLine(ch.params)];
  }

  /** The section has four lines in alpha mode and eight in factor mode, plus
      one for a comment; it opens with a blank line and its header, which the
      shader-index scan reads back as the index of a generated name, and it
      closes with the directive for the change's parameters. */
  lemma ShaderSectionShape(ch: Change, n: nat)
    requires ch.shaderName == ShaderName(n)
    ensures var r := ShaderSection(ch);
            |r| == (if ch.blend.TextureAlpha? then 4 else 8) + (if ch.comment != "" then 1 else 0) &&
            r[0] == "\n" && ShaderHeader(Strip(r[1])) == Some(n) &&
            r[|r| - 1] == ParamsLine(ch.params)
  {
    var r := ShaderSection(ch);
    assert r[1] == "[" + ShaderName(n) + "]" + "\n";
    HeaderLineStrip(ShaderName(n));
    ShaderNameIndex(n);
  }

  /** `[name]\n` strips to `[name]`. */
  lemma HeaderLineStrip(name: string)
    ensures Strip("[" + name + "]" + "\n") == "[" + name + "]"
  {
    var t := "[" + name + "]";
    assert AllSpace("\n") && AllSpace([]);
    StripPadded([], t, "\n");
    assert [] + t + "\n" == t + "\n";
    assert t[0] == '[' && t[|t| - 1] == ']';
    StripTrimmed(t);
  }

  /** A generated name reads back as its index. */
  lemma ShaderNameIndex(n: nat)
    ensures NameIndex(ShaderName(n)) == Some(n)
  {
    var d := NatToDecimal(n);
    var word := "CustomShaderTransparency";
    var s := "[" + word + d + "]";
    assert "[" + ShaderName(n) + "]" == s;
    assert s[1..25] == word;
    LowerWord();
    assert LiteralCI(s, 1, "customshadertransparency");
    assert s[25..25 + |d|] == d;
    DigitRunAll(s, 25, 25 + |d|);
    assert s[25..25 + |d|] == d;
    DecimalRoundTrip(n);
  }

  lemma LowerWord()
    ensures Lower("CustomShaderTransparency") == "customshadertransparency"
  {
  }

  lemma {:induction false} DigitRunAll(s: string, p: nat, e: nat)
    requires p <= e <= |s|
    requires forall k :: p <= k < e ==> IsDigit(s[k])
    requires e == |s| || !IsDigit(s[e])
    ensures DigitRunEnd(s, p) == e
    decreases e - p
  {
    if p < e {
      DigitRunAll(s, p + 1, e);
    }
  }

  lemma {:induction false} SpaceRunAll(s: string, p: nat, e: nat)
    requires p <= e <= |s|
    requires forall k :: p <= k < e ==> IsSpace(s[k])
    requires e == |s| || !IsSpace(s[e])
    ensures SpaceRunEnd(s, p) == e
    decreases e - p
  {
    if p < e {
      SpaceRunAll(s, p + 1, e);
    }
  }

  // ---------------------------------------------------------------------
  // What the rewrite sees in a line.

  /** A component header, an indented exact draw directive (with its
      indentation), any other `[...]` header, or anything else. */
  datatype LineRole = Opens(n: nat) | Directive(indent: string, params: Params) | Closes | Plain

  function RoleOf(line: string): LineRole {
    var t := Strip(line);
    match ComponentHeader(t)
    case Some(n) => Opens(n)
    case None =>
      match DrawIndented(line)
      case Some((w, p)) => Directive(w, p)
      case None => if StartsWith(t, "[") && EndsWith(t, "]") then Closes else Plain
  }

  function Roles(lines: seq<string>): (ks: seq<LineRole>)
    ensures |ks| == |lines| && forall i :: 0 <= i < |lines| ==> ks[i] == RoleOf(lines[i])
  {
    seq(|lines|, i requires 0 <= i < |lines| => RoleOf(lines[i]))
  }

  /** A draw directive is never a `[...]` header, so the header test after
      the directive test never sees one. */
  lemma DirectiveNotBracketed(line: string)
    requires DrawIndented(line).Some?
    ensures !StartsWith(Strip(line), "[")
  {
    var w := SpaceRunEnd(line, 0);
    DrawAtLiteral(line, w);
    LiteralFirst(line, w, "drawindexed");
    FirstVisible(line, w);
    NotBracket(Strip(line), line[w]);
  }

  lemma NotBracket(t: string, c: char)
    requires |t| > 0 && t[0] == c && LowerChar(c) == 'd'
    ensures !StartsWith(t, "[")
  {
    assert t[..1][0] == c;
  }

  lemma LiteralFirst(s: string, p: nat, lit: string)
    requires |lit| > 0 && LiteralCI(s, p, lit)
    ensures p < |s| && LowerChar(s[p]) == lit[0]
  {
    assert Lower(s[p..p + |lit|])[0] == LowerChar(s[p..p + |lit|][0]);
  }

  /** After leading blanks, the first visible character of a line is the
      first character of its strip. */
  lemma FirstVisible(line: string, w: nat)
    requires w < |line| && !IsSpace(line[w]) && forall k :: 0 <= k < w ==> IsSpace(line[k])
    ensures |Strip(line)| > 0 && Strip(line)[0] == line[w]
  {
    var r := RStrip(line);
    RStripPrefix(line);
    assert r == r[..w] + r[w..];
    assert AllSpace(r[..w]);
    LStripSkipsSpace(r[..w], r[w..]);
  }

  // ---------------------------------------------------------------------
  // The rewrite loop, one line at a time.

  /** `for sec in sections: new_lines.extend(sec)`. */
  function Flush(secs: seq<seq<string>>): seq<string>
    decreases |secs|
  {
    if secs == [] then [] else Flush(secs[..|secs| - 1]) + secs[|secs| - 1]
  }

  method FlushInto(out: seq<string>, secs: seq<seq<string>>) returns (r: seq<string>)
    ensures r == out + Flush(secs)
  {
    r := out;
    var k := 0;
    while k < |secs|
      invariant 0 <= k <= |secs|
      invariant r == out + Flush(secs[..k])
    {
      assert secs[..k + 1][..k] == secs[..k];
      r := r + secs[k];
      k := k + 1;
    }
    assert secs[..|secs|] == secs;
  }

  /** The directive, commented out in place. */
  function CommentedLine(indent: string, line: string): string {
    indent + "; " + LStrip(RStripNewlines(line)) + "\n"
  }

  /** The line that runs the shader. */
  function RunLine(indent: string, name: string): string {
    indent + "run = " + name + "\n"
  }

  /** `new_lines`, `shader_sections`, `current_comp` and `pending_map`
      between two lines. */
  datatype Rewrite = Rewrite(out: seq<string>, sections: seq<seq<string>>, comp: Option<nat>,
                             pending: map<(nat, Params), Change>)

  function RewriteStep(st: Rewrite, k: LineRole, line: string): Rewrite {
    match k
    case Opens(n) =>
      if st.comp.Some? then Rewrite(st.out + Flush(st.sections) + [line], [], Some(n), st.pending)
      else Rewrite(st.out + [line], st.sections, Some(n), st.pending)
    case Directive(w, p) =>
      if st.comp.Some? && (st.comp.value, p) in st.pending then
        var key := (st.comp.value, p);
        var ch := st.pending[key];
        Rewrite(st.out + [CommentedLine(w, line), RunLine(w, ch.shaderName)],
                st.sections + [ShaderSection(ch)], st.comp, st.pending - {key})
      else st.(out := st.out + [line])
    case Closes =>
      if st.comp.Some? then Rewrite(st.out + Flush(st.sections) + [line], [], None, st.pending)
      else st.(out := st.out + [line])
    case Plain => st.(out := st.out + [line])
  }

  function RewriteUpTo(lines: seq<string>, ks: seq<LineRole>, pend: map<(nat, Params), Change>, n: nat): Rewrite
    requires |ks| == |lines| && n <= |lines|
  {
    if n == 0 then Rewrite([], [], None, pend)
    else RewriteStep(RewriteUpTo(lines, ks, pend, n - 1), ks[n - 1], lines[n - 1])
  }

  /** The lines `apply_changes` writes: the loop, then the sections of a
      component still open at the end. */
  function RewriteFile(lines: seq<string>, pend: map<(nat, Params), Change>): seq<string> {
    RewriteWith(lines, Roles(lines), pend)
  }

  /** The same, for lines already classified. */
  function RewriteWith(lines: seq<string>, ks: seq<LineRole>, pend: map<(nat, Params), Change>): seq<string>
    requires |ks| == |lines|
  {
    var st := RewriteUpTo(lines, ks, pend, |lines|);
    if st.comp.Some? then st.out + Flush(st.sections) else st.out
  }

  /** `apply_changes` from the first line to the last: each line is
      classified, then rewritten. */
  method RewriteLines(lines: seq<string>, pend: map<(nat, Params), Change>) returns (newLines: seq<string>)
    ensures newLines == RewriteFile(lines, pend)
  {
    var ks := Roles(lines);
    newLines := RewriteClassified(lines, ks, pend);
  }

  /** The loop of `apply_changes`. */
  method RewriteClassified(lines: seq<string>, ks: seq<LineRole>, pend: map<(nat, Params), Change>)
    returns (newLines: seq<string>)
    requires |ks| == |lines|
    ensures newLines == RewriteWith(lines, ks, pend)
  {
    newLines := [];
    var shaderSections: seq<seq<string>> := [];
    var currentComp: Option<nat> := None;
    var pendingMap := pend;
    var i := 0;
    while i < |lines|
      invariant 0 <= i <= |lines|
      invariant Rewrite(newLines, shaderSections, currentComp, pendingMap) == RewriteUpTo(lines, ks, pend, i)
    {
      var line := lines[i];
      match ks[i] {
        case Opens(n) =>
          if currentComp.Some? {
            newLines := FlushInto(newLines, shaderSections);
            shaderSections := [];
          }
          currentComp := Some(n);
          newLines := newLines + [line];
        case Directive(w, p) =>
          if currentComp.Some? && (currentComp.value, p) in pendingMap {
            var key := (currentComp.value, p);
            var ch := pendingMap[key];
            newLines := newLines + [CommentedLine(w, line)];
            newLines := newLines + [RunLine(w, ch.shaderName)];
            var sec := BuildShaderSection(ch);
            shaderSections := shaderSections + [sec];
            pendingMap := pendingMap - {key};
          } else {
            newLines := newLines + [line];
          }
        case Closes =>
          if currentComp.Some? {
            newLines := FlushInto(newLines, shaderSections);
            shaderSections := [];
            currentComp := None;
          }
          newLines := newLines + [line];
        case Plain =>
          newLines := newLines + [line];
      }
      i := i + 1;
    }
    if currentComp.Some? {
      newLines := FlushInto(newLines, shaderSections);
    }
  }

  /** `{(ch["component"], ch["params"]): ch for ch in pending_changes}`. */
  function PendingMap(cs: seq<Change>): map<(nat, Params), Change>
    decreases |cs|
  {
    if cs == [] then map[]
    else PendingMap(cs[..|cs| - 1])[KeyOf(cs[|cs| - 1]) := cs[|cs| - 1]]
  }

  /** The map is keyed by exactly the keys of the queue, and with unique keys
      each key finds its own change. */
  lemma {:induction false} PendingMapSpec(cs: seq<Change>)
    ensures forall key :: key in PendingMap(cs) <==> exists i :: 0 <= i < |cs| && KeyOf(cs[i]) == key
    ensures UniqueKeys(cs) ==> forall i :: 0 <= i < |cs| ==> PendingMap(cs)[KeyOf(cs[i])] == cs[i]
    decreases |cs|
  {
    if cs != [] {
      var pre := cs[..|cs| - 1];
      PendingMapSpec(pre);
      forall key | key in PendingMap(cs) ensures exists i :: 0 <= i < |cs| && KeyOf(cs[i]) == key {
        if key != KeyOf(cs[|cs| - 1]) {
          assert key in PendingMap(pre);
          var i :| 0 <= i < |pre| && KeyOf(pre[i]) == key;
          assert cs[i] == pre[i];
        }
      }
      forall key | exists i :: 0 <= i < |cs| && KeyOf(cs[i]) == key ensures key in PendingMap(cs) {
        var i :| 0 <= i < |cs| && KeyOf(cs[i]) == key;
        if i < |pre| {
          assert pre[i] == cs[i];
        }
      }
      if UniqueKeys(cs) {
        forall i | 0 <= i < |cs| ensures PendingMap(cs)[KeyOf(cs[i])] == cs[i] {
          if i < |pre| {
            assert pre[i] == cs[i];
            assert KeyOf(cs[i]) != KeyOf(cs[|cs| - 1]);
          }
        }
      }
    }
  }

  // ---------------------------------------------------------------------
  // The same, line by line: which component a line is in for the rewrite,
  // which directive is the first use of a pending key, and where the
  // sections go.

  /** The component open at line `n`: a component header opens one, any
      other `[...]` header closes it. */
  function Owner(ks: seq<LineRole>, n: nat): Option<nat>
    requires n <= |ks|
  {
    if n == 0 then None
    else match ks[n - 1]
      case Opens(c) => Some(c)
      case Closes => None
      case _ => Owner(ks, n - 1)
  }

  /** The pending-map key a directive line would look up. */
  function KeyAt(ks: seq<LineRole>, i: nat): Option<(nat, Params)>
    requires i < |ks|
  {
    if ks[i].Directive? && Owner(ks, i).Some? then Some((Owner(ks, i).value, ks[i].params)) else None
  }

  /** Line `i` is the first directive of its component with a key that is
      pending. */
  predicate FirstUse(ks: seq<LineRole>, pend: map<(nat, Params), Change>, i: nat)
    requires i < |ks|
  {
    KeyAt(ks, i).Some? && KeyAt(ks, i).value in pend &&
    forall j :: 0 <= j < i ==> KeyAt(ks, j) != KeyAt(ks, i)
  }

  predicate Boundary(ks: seq<LineRole>, i: nat)
    requires i < |ks|
  {
    ks[i].Opens? || ks[i].Closes?
  }

  /** The first line after the last header before `n`. */
  function OpenedAt(ks: seq<LineRole>, n: nat): (lo: nat)
    requires n <= |ks|
    ensures lo <= n
  {
    if n == 0 then 0
    else if Boundary(ks, n - 1) then n
    else OpenedAt(ks, n - 1)
  }

  /** The sections of the first uses in `[lo, n)`, in line order. */
  function SectionsIn(ks: seq<LineRole>, pend: map<(nat, Params), Change>, lo: nat, n: nat): seq<seq<string>>
    requires lo <= n <= |ks|
    decreases n
  {
    if n == lo then []
    else
      SectionsIn(ks, pend, lo, n - 1) +
      (if FirstUse(ks, pend, n - 1) then [ShaderSection(pend[KeyAt(ks, n - 1).value])] else [])
  }

  /** What line `i` turns into: a header first emits the sections of the
      component it ends; a first use becomes the commented directive and the
      `run` line; every other line is copied. */
  function ChunkAt(lines: seq<string>, ks: seq<LineRole>, pend: map<(nat, Params), Change>, i: nat): seq<string>
    requires |ks| == |lines| && i < |lines|
  {
    (if Boundary(ks, i) then Flush(SectionsIn(ks, pend, OpenedAt(ks, i), i)) else []) +
    (if FirstUse(ks, pend, i)
     then [CommentedLine(ks[i].indent, lines[i]), RunLine(ks[i].indent, pend[KeyAt(ks, i).value].shaderName)]
     else [lines[i]])
  }

  function ChunksUpTo(lines: seq<string>, ks: seq<LineRole>, pend: map<(nat, Params), Change>, n: nat): seq<string>
    requires |ks| == |lines| && n <= |lines|
  {
    if n == 0 then [] else ChunksUpTo(lines, ks, pend, n - 1) + ChunkAt(lines, ks, pend, n - 1)
  }

  /** The pending keys no line before `n` has looked up. */
  function Unused(ks: seq<LineRole>, pend: map<(nat, Params), Change>, n: nat): map<(nat, Params), Change>
    requires n <= |ks|
  {
    map key | key in pend && (forall j :: 0 <= j < n ==> KeyAt(ks, j) != Some(key)) :: pend[key]
  }

  predicate RewriteAgrees(lines: seq<string>, ks: seq<LineRole>, pend: map<(nat, Params), Change>, n: nat, st: Rewrite)
    requires |ks| == |lines| && n <= |lines|
  {
    st.comp == Owner(ks, n) && st.sections == SectionsIn(ks, pend, OpenedAt(ks, n), n) &&
    st.pending == Unused(ks, pend, n) && st.out == ChunksUpTo(lines, ks, pend, n)
  }

  /** The owner does not change between headers. */
  lemma {:induction false} OwnerSinceOpened(ks: seq<LineRole>, n: nat, j: nat)
    requires n <= |ks| && OpenedAt(ks, n) <= j <= n
    ensures Owner(ks, j) == Owner(ks, n)
    decreases n
  {
    if j < n && !Boundary(ks, n - 1) {
      OwnerSinceOpened(ks, n - 1, j);
    }
  }

  lemma {:induction false} SectionsQuiet(ks: seq<LineRole>, pend: map<(nat, Params), Change>, lo: nat, m: nat)
    requires lo <= m <= |ks| && forall j :: lo <= j < m ==> Owner(ks, j).None?
    ensures SectionsIn(ks, pend, lo, m) == []
    decreases m
  {
    if m > lo {
      SectionsQuiet(ks, pend, lo, m - 1);
    }
  }

  /** With no component open there are no sections waiting. */
  lemma NoOwnerNoSections(ks: seq<LineRole>, pend: map<(nat, Params), Change>, n: nat)
    requires n <= |ks| && Owner(ks, n).None?
    ensures SectionsIn(ks, pend, OpenedAt(ks, n), n) == []
  {
    forall j | OpenedAt(ks, n) <= j < n ensures Owner(ks, j).None? {
      OwnerSinceOpened(ks, n, j);
    }
    SectionsQuiet(ks, pend, OpenedAt(ks, n), n);
  }

  /** A key is consumed by the line that looks it up. */
  lemma UnusedStep(ks: seq<LineRole>, pend: map<(nat, Params), Change>, n: nat)
    requires 0 < n <= |ks|
    ensures Unused(ks, pend, n) ==
            if KeyAt(ks, n - 1).Some? then Unused(ks, pend, n - 1) - {KeyAt(ks, n - 1).value} else Unused(ks, pend, n - 1)
  {
    var a := Unused(ks, pend, n);
    var b := if KeyAt(ks, n - 1).Some? then Unused(ks, pend, n - 1) - {KeyAt(ks, n - 1).value} else Unused(ks, pend, n - 1);
    forall key ensures key in a <==> key in b {
      if key in b {
        forall j | 0 <= j < n ensures KeyAt(ks, j) != Some(key) {
          if j < n - 1 {
            assert key in Unused(ks, pend, n - 1);
          }
        }
      }
    }
    assert a.Keys == b.Keys;
  }

  /** The first use of a key is a lookup of a key still unused. */
  lemma FirstUseUnused(ks: seq<LineRole>, pend: map<(nat, Params), Change>, i: nat)
    requires i < |ks|
    ensures FirstUse(ks, pend, i) <==> KeyAt(ks, i).Some? && KeyAt(ks, i).value in Unused(ks, pend, i)
  {
  }

  lemma RewriteStepAgrees(lines: seq<string>, ks: seq<LineRole>, pend: map<(nat, Params), Change>, n: nat, st: Rewrite)
    requires |ks| == |lines| && 0 < n <= |lines|
    requires RewriteAgrees(lines, ks, pend, n - 1, st)
    ensures RewriteAgrees(lines, ks, pend, n, RewriteStep(st, ks[n - 1], lines[n - 1]))
  {
    var i := n - 1;
    UnusedStep(ks, pend, n);
    FirstUseUnused(ks, pend, i);
    if st.comp.None? {
      NoOwnerNoSections(ks, pend, i);
    }
  }

  /** The rewrite state after `n` lines is the line-by-line reading. */
  lemma {:induction false} RewriteMatches(lines: seq<string>, ks: seq<LineRole>, pend: map<(nat, Params), Change>, n: nat)
    requires |ks| == |lines| && n <= |lines|
    ensures RewriteAgrees(lines, ks, pend, n, RewriteUpTo(lines, ks, pend, n))
    decreases n
  {
    if n > 0 {
      RewriteMatches(lines, ks, pend, n - 1);
      RewriteStepAgrees(lines, ks, pend, n, RewriteUpTo(lines, ks, pend, n - 1));
    }
  }

  /** `apply_changes` writes, line by line, each line's chunk, and then the
      sections of a component still open at the end: the first directive of a
      component with a pending key becomes the commented directive and its
      `run` line, later directives with that key are copied, every other line
      is copied in order, and the sections of a component come out, in the
      order of their directives, right before the header that ends it or at
      the end of the file. */
  lemma RewriteFileSpec(lines: seq<string>, pend: map<(nat, Params), Change>)
    ensures var ks := Roles(lines);
            RewriteFile(lines, pend) ==
            ChunksUpTo(lines, ks, pend, |lines|) + Flush(SectionsIn(ks, pend, OpenedAt(ks, |lines|), |lines|))
  {
    var ks := Roles(lines);
    RewriteMatches(lines, ks, pend, |lines|);
    if Owner(ks, |lines|).None? {
      NoOwnerNoSections(ks, pend, |lines|);
    }
  }

  /** A directive the rewrite has commented out is a plain line to the
      rewrite, so a second rewrite copies it as it is. */
  lemma CommentedInert(indent: string, line: string)
    requires AllSpace(indent)
    ensures RoleOf(CommentedLine(indent, line)) == Plain
  {
    var c := CommentedLine(indent, line);
    var w := |indent|;
    assert c[w] == ';';
    forall k | 0 <= k < w ensures IsSpace(c[k]) {
      assert c[k] == indent[k];
    }
    FirstVisible(c, w);
    SpaceRunAll(c, 0, w);
    assert !LiteralCI(c, w, "drawindexed") by {
      if w + 11 <= |c| {
        assert Lower(c[w..w + 11])[0] == LowerChar(c[w]);
      }
    }
  }
}
