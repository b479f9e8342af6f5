/** The guard block both toggle makers wrap around a draw line:

        <indent>if $v == 0
        <indent>    <moved comment>        (optional)
        <indent>    <draw directive>
        <indent>endif

    and the rewrite that replaces a draw line (and the comment above it, when
    one is moved) by that block. */
module GuardBlocks {
  import opened PyText
  import opened IniPatterns
  import opened IniSections

  function GuardLine(indent: string, v: string): string {
    indent + "if $" + v + " == 0\n"
  }

  function EndifLine(indent: string): string {
    indent + "endif\n"
  }

  function EnsureNewline(c: string): string {
    if EndsWith(c, "\n") then c else c + "\n"
  }

  /** The comment line as written inside the guard. */
  function MovedComment(indent: string, c: string): string {
    indent + "    " + LStrip(EnsureNewline(LStrip(c)))
  }

  /** The draw directive as written inside the guard. */
  function BodyDrawLine(indent: string, base: string): string {
    indent + "    " + base + "\n"
  }

  /** The guard block for `drawline`, keeping its indentation. */
  function WrapBlock(drawline: string, v: string, comment: Option<string>): (b: seq<string>)
    ensures |b| == if comment.Some? then 4 else 3
  {
    var raw := RStripNewlines(drawline);
    var indent := Indent(raw);
    var base := Strip(raw);
    [GuardLine(indent, v)] +
    (if comment.Some? then [MovedComment(indent, comment.value)] else []) +
    [BodyDrawLine(indent, base), EndifLine(indent)]
  }

  /** Where the block goes: at the moved comment's line, else at the draw line. */
  function WrapAt(idx: nat, moved: Option<(nat, string)>): nat {
    if moved.Some? then moved.value.0 else idx
  }

  /** The lines other than the draw line and the moved comment, in order. */
  function WithoutWrapped(lines: seq<string>, idx: nat, moved: Option<(nat, string)>): seq<string>
    requires idx < |lines|
    requires moved.Some? ==> moved.value.0 < idx
  {
    if moved.Some? then
      var c := moved.value.0;
      lines[..c] + lines[c + 1..idx] + lines[idx + 1..]
    else lines[..idx] + lines[idx + 1..]
  }

  /** Pop the draw line at `idx` (and the comment line `moved.0` above it, when
      one is moved), then splice the block in where the first removed line was.
      The block carries the comment text `moved.1`. */
  function Rewrap(lines: seq<string>, idx: nat, v: string, moved: Option<(nat, string)>): seq<string>
    requires idx < |lines|
    requires moved.Some? ==> moved.value.0 < idx
  {
    var block := WrapBlock(lines[idx], v, if moved.Some? then Some(moved.value.1) else None);
    Splice(WithoutWrapped(lines, idx, moved), WrapAt(idx, moved), block)
  }

  /** A rewrap grows the list by exactly two lines: lines before the insertion
      point are unchanged, the block follows, and then the remaining lines in
      their order (the blank lines that separated a moved comment from its
      draw line now follow the block). */
  lemma RewrapShape(lines: seq<string>, idx: nat, v: string, moved: Option<(nat, string)>)
    requires idx < |lines|
    requires moved.Some? ==> moved.value.0 < idx
    ensures var r := Rewrap(lines, idx, v, moved);
            var at := WrapAt(idx, moved);
            var block := WrapBlock(lines[idx], v, if moved.Some? then Some(moved.value.1) else None);
            |r| == |lines| + 2 &&
            r[..at] == lines[..at] &&
            r[at..at + |block|] == block &&
            r[at + |block|..] == (if moved.Some? then lines[at + 1..idx] else []) + lines[idx + 1..]
  {
    var at := WrapAt(idx, moved);
    var rest := WithoutWrapped(lines, idx, moved);
    var block := WrapBlock(lines[idx], v, if moved.Some? then Some(moved.value.1) else None);
    var r := Splice(rest, at, block);
    assert rest[..at] == lines[..at];
    assert rest[at..] == (if moved.Some? then lines[at + 1..idx] else []) + lines[idx + 1..];
    assert r == rest[..at] + block + rest[at..];
  }

  /** The pops and the splice of one wrap. */
  method RewrapLines(lines: seq<string>, idx: nat, v: string, moved: Option<(nat, string)>) returns (out: seq<string>)
    requires idx < |lines|
    requires moved.Some? ==> moved.value.0 < idx
    ensures out == Rewrap(lines, idx, v, moved)
  {
    var drawline := lines[idx];
    out := lines[..idx] + lines[idx + 1..];
    var insertAt := idx;
    if moved.Some? {
      var c := moved.value.0;
      out := out[..c] + out[c + 1..];
      insertAt := c;
      assert out == lines[..c] + lines[c + 1..idx] + lines[idx + 1..];
    }
    var block := WrapBlock(drawline, v, if moved.Some? then Some(moved.value.1) else None);
    out := out[..insertAt] + block + out[insertAt..];
  }

  /** The nearest line at or above `j` that is not blank. */
  function NonBlankFrom(lines: seq<string>, j: int): (r: Option<nat>)
    requires j < |lines|
    ensures r.Some? ==> r.value <= j
    decreases j + 1
  {
    if j < 0 then None
    else if Strip(lines[j]) != [] then Some(j)
    else NonBlankFrom(lines, j - 1)
  }

  /** The walk up stops at the nearest non-blank line, or finds none. */
  lemma {:induction false} NonBlankFromSpec(lines: seq<string>, j: int)
    requires j < |lines|
    ensures var r := NonBlankFrom(lines, j);
            (r.Some? ==> Strip(lines[r.value]) != [] && forall q :: r.value < q <= j ==> Strip(lines[q]) == []) &&
            (r.None? ==> forall q :: 0 <= q <= j ==> Strip(lines[q]) == [])
    decreases j + 1
  {
    if j >= 0 && Strip(lines[j]) == [] {
      NonBlankFromSpec(lines, j - 1);
    }
  }

  // ---------------------------------------------------------------------
  // What the block reads back as.

  /** `rstrip("\n")` removes trailing whitespace only. */
  lemma {:induction false} RStripNewlinesSplit(s: string)
    ensures |RStripNewlines(s)| <= |s|
    ensures s == RStripNewlines(s) + s[|RStripNewlines(s)|..]
    ensures AllSpace(s[|RStripNewlines(s)|..])
    decreases |s|
  {
    if |s| > 0 && s[|s| - 1] == '\n' {
      RStripNewlinesSplit(s[..|s| - 1]);
    }
  }

  /** The draw line inside the guard strips to the same directive as the
      original line. */
  lemma BodyDrawStrip(drawline: string)
    ensures var raw := RStripNewlines(drawline);
            Strip(BodyDrawLine(Indent(raw), Strip(raw))) == Strip(drawline)
  {
    var raw := RStripNewlines(drawline);
    RawStrip(drawline);
    IndentBlank(raw);
    StripIdempotent(raw);
    PaddedBody(Indent(raw), Strip(raw));
  }

  /** `rstrip("\n")` does not change the strip. */
  lemma RawStrip(drawline: string)
    ensures Strip(RStripNewlines(drawline)) == Strip(drawline)
  {
    var raw := RStripNewlines(drawline);
    RStripNewlinesSplit(drawline);
    StripPadded([], raw, drawline[|raw|..]);
    assert [] + raw + drawline[|raw|..] == drawline;
  }

  lemma IndentBlank(raw: string)
    ensures AllSpace(Indent(raw))
  {
    LStripSuffix(raw);
  }

  lemma PaddedBody(indent: string, base: string)
    requires AllSpace(indent) && Strip(base) == base
    ensures Strip(BodyDrawLine(indent, base)) == base
  {
    assert AllSpace(indent + "    ");
    StripPadded(indent + "    ", base, "\n");
  }

  /** The guard line opens a guard on `v`, for an identifier `v`. */
  lemma GuardLineMatches(indent: string, v: string)
    requires AllSpace(indent) && IsIdent(v)
    ensures GuardMatch(Strip(GuardLine(indent, v))) == Some(v)
  {
    var t := "if $" + v + " == 0";
    assert GuardLine(indent, v) == indent + t + "\n";
    StripPadded(indent, t, "\n");
    StripTrimmed(t);
    var n := |v|;
    assert t[..2] == "if";
    assert t[2] == ' ' && t[3] == '$' && t[4 + n] == ' ' && t[5 + n] == '=' && t[6 + n] == '=';
    assert t[7 + n] == ' ' && t[8 + n] == '0' && |t| == 9 + n;
    assert t[4..4 + n] == v;
    GuardAtStart(v, t);
  }

  /** `if $v == 0`, written out character by character, matches as a guard. */
  lemma GuardAtStart(v: string, t: string)
    requires IsIdent(v) && |t| == |v| + 9
    requires t[..2] == "if" && t[2] == ' ' && t[3] == '$' && t[4..4 + |v|] == v
    requires t[4 + |v|] == ' ' && t[5 + |v|] == '=' && t[6 + |v|] == '='
    requires t[7 + |v|] == ' ' && t[8 + |v|] == '0'
    ensures GuardMatch(t) == Some(v)
  {
    var n := |v|;
    IfAtStart(t);
    OneBlank(t, 2);
    IdentRun(v, t);
    OneBlank(t, 4 + n);
    DoubleEquals(t, 5 + n);
    OneBlank(t, 7 + n);
    assert SpaceRunEnd(t, 9 + n) == 9 + n;
  }

  lemma IfAtStart(t: string)
    requires 2 <= |t| && t[..2] == "if"
    ensures LiteralCI(t, 0, "if")
  {
    assert t[0..2] == t[..2];
    assert Lower("if") == "if";
  }

  /** One blank, then a visible character. */
  lemma OneBlank(t: string, p: nat)
    requires p + 1 < |t| && t[p] == ' ' && (t[p + 1] == '$' || t[p + 1] == '=' || t[p + 1] == '0')
    ensures SpaceRunEnd(t, p) == p + 1
  {
  }

  lemma DoubleEquals(t: string, q: nat)
    requires q + 1 < |t| && t[q] == '=' && t[q + 1] == '='
    ensures Literal(t, q, "==")
  {
    assert t[q..q + 2] == "==";
  }

  lemma IdentRun(v: string, t: string)
    requires IsIdent(v) && 5 + |v| <= |t| && t[4..4 + |v|] == v && t[4 + |v|] == ' '
    ensures WordRunEnd(t, 4) == 4 + |v|
  {
    var n := |v|;
    forall k | 4 <= k < 4 + n ensures IsWordChar(t[k]) {
      assert t[k] == t[4..4 + n][k - 4];
    }
    WordRunAll(t, 4, 4 + n);
  }

  lemma {:induction false} WordRunAll(s: string, p: nat, e: nat)
    requires p <= e <= |s|
    requires forall k :: p <= k < e ==> IsWordChar(s[k])
    requires WordRunEnd(s, e) == e
    ensures WordRunEnd(s, p) == e
    decreases e - p
  {
    if p < e {
      WordRunAll(s, p + 1, e);
    }
  }

  /** The closing line reads back as `endif`. */
  lemma EndifLineMatches(indent: string)
    requires AllSpace(indent)
    ensures Lower(Strip(EndifLine(indent))) == "endif"
  {
    assert EndifLine(indent) == indent + "endif" + "\n";
    StripPadded(indent, "endif", "\n");
    StripTrimmed("endif");
    assert Lower("endif") == "endif";
  }

  /** The comment inside the guard strips to the same text as the original
      comment. */
  lemma MovedCommentStrip(indent: string, c: string)
    requires AllSpace(indent)
    ensures Strip(MovedComment(indent, c)) == Strip(c)
  {
    var c1 := LStrip(c);
    LStripSuffix(c);
    var e := EnsureNewline(c1);
    var m := LStrip(e);
    var w := indent + "    ";
    assert AllSpace(w);
    StripPadded(c[..|c| - |c1|], c1, []);
    assert c[..|c| - |c1|] + c1 + [] == c;
    if c1 == [] {
      assert e == "\n";
      assert m == [];
      StripPadded(w, [], []);
      assert w + [] + [] == w + m;
    } else {
      assert !IsSpace(c1[0]);
      assert m == e;
      if EndsWith(c1, "\n") {
        StripPadded(w, c1, []);
        assert w + c1 + [] == w + m;
      } else {
        StripPadded(w, c1, "\n");
        assert w + c1 + "\n" == w + m;
      }
    }
  }
}
