/** Line classification shared by the tools: section headers, comments, blank
    lines, draw lines, the `[Constants]` header, and the component/comment
    tracking that both toggle parsers perform while walking a file. */
module IniSections {
  import opened PyText
  import opened IniPatterns

  /** A section boundary: the stripped line starts with `[` and ends with `]`. */
  predicate IsHeader(line: string) {
    var s := Strip(line);
    StartsWith(s, "[") && EndsWith(s, "]")
  }

  lemma HeaderIsLong(line: string)
    requires IsHeader(line)
    ensures |Strip(line)| >= 2
  {
    var s := Strip(line);
    assert s[0] == '[' by { assert s[..1] == "["; }
    assert s[|s| - 1] == ']' by { assert s[|s| - 1..] == "]"; }
  }

  /** `s[1:-1]` of a header line. */
  function HeaderName(line: string): string
    requires IsHeader(line)
  {
    HeaderIsLong(line);
    var s := Strip(line);
    s[1..|s| - 1]
  }

  predicate IsComment(line: string) {
    StartsWith(Strip(line), ";")
  }

  predicate IsBlank(line: string) {
    Strip(line) == ""
  }

  /** A non-comment line whose stripped text contains `drawindexed`. */
  predicate IsDrawLine(line: string) {
    var t := Strip(line);
    Contains(t, "drawindexed") && !StartsWith(t, ";")
  }

  predicate IsConstantsHeader(line: string) {
    Lower(Strip(line)) == "[constants]"
  }

  /** A header whose name, lower-cased, starts with `key`. */
  predicate IsKeyHeader(line: string) {
    IsHeader(line) && StartsWith(Lower(HeaderName(line)), "key")
  }

  /** The component number announced by a line, if it is a component header. */
  function ComponentOf(line: string): Option<nat> {
    ComponentHeader(Strip(line))
  }

  /** Index of the first `[constants]` line at or after `from`. */
  function ConstantsFrom(lines: seq<string>, from: nat): (r: Option<nat>)
    ensures r.Some? ==> from <= r.value < |lines| && IsConstantsHeader(lines[r.value])
    ensures forall k :: from <= k < |lines| && (r.None? || k < r.value) ==> !IsConstantsHeader(lines[k])
    decreases |lines| - from
  {
    if from >= |lines| then None
    else if IsConstantsHeader(lines[from]) then Some(from)
    else ConstantsFrom(lines, from + 1)
  }

  /** Index of the first `[constants]` line of the file. */
  function ConstantsIndex(lines: seq<string>): Option<nat> {
    ConstantsFrom(lines, 0)
  }

  /** Index of the first header at or after `from`, or `|lines|` when there is none. */
  function NextHeader(lines: seq<string>, from: nat): (r: nat)
    ensures r <= |lines|
    ensures r < |lines| ==> from <= r && IsHeader(lines[r])
    ensures from <= |lines| ==> from <= r
    ensures forall k :: from <= k < r ==> !IsHeader(lines[k])
    decreases |lines| - from
  {
    if from >= |lines| then |lines|
    else if IsHeader(lines[from]) then from
    else NextHeader(lines, from + 1)
  }

  /** A header-free stretch ends where the next header is. */
  lemma NextHeaderAt(lines: seq<string>, from: nat, r: nat)
    requires from <= r <= |lines|
    requires r == |lines| || IsHeader(lines[r])
    requires forall k :: from <= k < r ==> !IsHeader(lines[k])
    ensures NextHeader(lines, from) == r
    decreases r - from
  {
    if from < r {
      NextHeaderAt(lines, from + 1, r);
    }
  }

  // ---------------------------------------------------------------------
  // Component tracking of `parse_draw` (both toggle versions). Each line is
  // classified once; the walk itself only looks at the classification: a
  // component header opens a component, any other header closes it, and the
  // latest comment line is remembered from the component header on.

  /** How `parse_draw` sees one line, tested in the order the loop tests. */
  datatype LineKind = CompHead(n: nat) | Header | Comment | Draw | Other

  function KindOf(line: string): (k: LineKind)
    ensures k.CompHead? <==> ComponentOf(line).Some?
    ensures k.CompHead? ==> ComponentOf(line) == Some(k.n)
    ensures k.Header? <==> ComponentOf(line).None? && IsHeader(line)
    ensures k.Comment? <==> ComponentOf(line).None? && !IsHeader(line) && IsComment(line)
    ensures k.Draw? <==> ComponentOf(line).None? && !IsHeader(line) && !IsComment(line) && IsDrawLine(line)
  {
    match ComponentOf(line)
    case Some(n) => CompHead(n)
    case None =>
      if IsHeader(line) then Header
      else if IsComment(line) then Comment
      else if IsDrawLine(line) then Draw
      else Other
  }

  function Kinds(lines: seq<string>): (ks: seq<LineKind>)
    ensures |ks| == |lines|
    ensures forall i :: 0 <= i < |lines| ==> ks[i] == KindOf(lines[i])
  {
    seq(|lines|, i requires 0 <= i < |lines| => KindOf(lines[i]))
  }

  /** The component open just before line `i`. */
  function CompAt(ks: seq<LineKind>, i: nat): Option<nat>
    requires i <= |ks|
    decreases i
  {
    if i == 0 then None
    else
      match ks[i - 1]
      case CompHead(n) => Some(n)
      case Header => None
      case _ => CompAt(ks, i - 1)
  }

  /** The index of the comment line remembered just before line `i`. */
  function CommentAt(ks: seq<LineKind>, i: nat): (r: Option<nat>)
    requires i <= |ks|
    ensures r.Some? ==> r.value < i
    decreases i
  {
    if i == 0 then None
    else if CompAt(ks, i - 1).None? then CommentAt(ks, i - 1)
    else
      match ks[i - 1]
      case CompHead(_) => None
      case Header => None
      case Comment => Some(i - 1)
      case _ => CommentAt(ks, i - 1)
  }

  /** The text of the comment line remembered just before line `i`. */
  function RememberedComment(lines: seq<string>, ks: seq<LineKind>, i: nat): Option<string>
    requires |ks| == |lines| && i <= |lines|
  {
    match CommentAt(ks, i) case Some(c) => Some(lines[c]) case None => None
  }

  /** Line `i` becomes a draw entry: a draw line while a component is open. */
  predicate IsEntry(ks: seq<LineKind>, i: nat)
    requires i < |ks|
  {
    ks[i].Draw? && CompAt(ks, i).Some?
  }

  /** An entry line is a non-comment `drawindexed` line that is no header. */
  lemma EntryLine(lines: seq<string>, i: nat)
    requires i < |lines| && IsEntry(Kinds(lines), i)
    ensures IsDrawLine(lines[i]) && !IsComment(lines[i]) && !IsHeader(lines[i]) && ComponentOf(lines[i]).None?
  {
    assert Kinds(lines)[i] == KindOf(lines[i]);
  }

  /** The remembered comment index is a comment line. */
  lemma {:induction false} CommentAtIsComment(ks: seq<LineKind>, i: nat)
    requires i <= |ks|
    ensures CommentAt(ks, i).Some? ==> ks[CommentAt(ks, i).value].Comment?
    decreases i
  {
    if i > 0 {
      CommentAtIsComment(ks, i - 1);
    }
  }

  /** The remembered comment is a comment line of the file. */
  lemma RememberedIsComment(lines: seq<string>, i: nat)
    requires i <= |lines|
    ensures var r := RememberedComment(lines, Kinds(lines), i);
            r.Some? ==> IsComment(r.value)
  {
    var ks := Kinds(lines);
    CommentAtIsComment(ks, i);
    if CommentAt(ks, i).Some? {
      var c := CommentAt(ks, i).value;
      assert ks[c] == KindOf(lines[c]);
    }
  }

  /** The indices of the entry lines among the first `n` lines, in order. */
  function EntryIndices(ks: seq<LineKind>, n: nat): seq<nat>
    requires n <= |ks|
  {
    if n == 0 then []
    else EntryIndices(ks, n - 1) + (if IsEntry(ks, n - 1) then [n - 1] else [])
  }

  /** Line `h` is the header of the component that is open at line `i`:
      a component header with no header, of any kind, strictly between. */
  predicate OpenedAt(ks: seq<LineKind>, h: nat, i: nat)
    requires h < i <= |ks|
  {
    ks[h].CompHead? && forall m :: h < m < i ==> !ks[m].CompHead? && !ks[m].Header?
  }

  /** A component is open at `i` exactly when the last header before `i` is a
      component header, and it is that header's component. */
  lemma {:induction false} CompAtOpened(ks: seq<LineKind>, i: nat)
    requires i <= |ks|
    ensures CompAt(ks, i).Some? <==> exists h :: 0 <= h < i && OpenedAt(ks, h, i)
    ensures forall h :: 0 <= h < i && OpenedAt(ks, h, i) ==> CompAt(ks, i) == Some(ks[h].n)
    decreases i
  {
    if i > 0 {
      CompAtOpened(ks, i - 1);
      forall h | 0 <= h < i && OpenedAt(ks, h, i)
        ensures CompAt(ks, i) == Some(ks[h].n)
      {
        if h < i - 1 {
          assert OpenedAt(ks, h, i - 1);
        }
      }
      if CompAt(ks, i).Some? {
        if ks[i - 1].CompHead? {
          assert OpenedAt(ks, i - 1, i);
        } else {
          var h :| 0 <= h < i - 1 && OpenedAt(ks, h, i - 1);
          assert OpenedAt(ks, h, i);
        }
      }
    }
  }

  /** While no component is open, no comment is remembered. */
  lemma {:induction false} NoCompNoComment(ks: seq<LineKind>, i: nat)
    requires i <= |ks|
    ensures CompAt(ks, i).None? ==> CommentAt(ks, i).None?
    decreases i
  {
    if i > 0 {
      NoCompNoComment(ks, i - 1);
    }
  }

  /** The remembered comment is the latest comment line after the component
      header `h` and before `i`, or nothing when there is none. */
  lemma {:induction false} CommentIsLatest(ks: seq<LineKind>, h: nat, i: nat)
    requires h < i <= |ks| && OpenedAt(ks, h, i)
    ensures CommentAt(ks, i).None? <==> forall k :: h < k < i ==> !ks[k].Comment?
    ensures CommentAt(ks, i).Some? ==>
              var c := CommentAt(ks, i).value;
              h < c < i && ks[c].Comment? && forall m :: c < m < i ==> !ks[m].Comment?
    decreases i
  {
    NoCompNoComment(ks, i - 1);
    if i - 1 > h {
      assert OpenedAt(ks, h, i - 1);
      CommentIsLatest(ks, h, i - 1);
      CompAtOpened(ks, i - 1);
    }
  }

  /** Entry indices are strictly increasing and below `n`. */
  lemma {:induction false} EntryIndicesIncreasing(ks: seq<LineKind>, n: nat)
    requires n <= |ks|
    ensures forall k :: 0 <= k < |EntryIndices(ks, n)| ==> EntryIndices(ks, n)[k] < n
    ensures forall k, l :: 0 <= k < l < |EntryIndices(ks, n)| ==>
              EntryIndices(ks, n)[k] < EntryIndices(ks, n)[l]
    decreases n
  {
    if n > 0 {
      EntryIndicesIncreasing(ks, n - 1);
    }
  }

  /** Exactly the entry lines are listed. */
  lemma {:induction false} EntryIndicesExact(ks: seq<LineKind>, n: nat)
    requires n <= |ks|
    ensures forall i :: 0 <= i < n ==> (i in EntryIndices(ks, n) <==> IsEntry(ks, i))
    ensures forall i :: i in EntryIndices(ks, n) ==> i < n
    decreases n
  {
    if n > 0 {
      EntryIndicesExact(ks, n - 1);
    }
  }
  /** What an entry for line `i` records: the number `comp` of the component
      header `h` that opened its section, and the latest comment line after
      `h` (none when there is none). */
  predicate ReadsAsEntry(lines: seq<string>, ks: seq<LineKind>, i: nat, comp: nat, comment: Option<string>)
    requires |ks| == |lines| && i < |lines|
  {
    exists h :: 0 <= h < i && OpenedAt(ks, h, i) && comp == ks[h].n &&
      (comment.None? <==> forall c :: h < c < i ==> !ks[c].Comment?) &&
      (comment.Some? ==> exists c :: h < c < i && ks[c].Comment? && comment.value == lines[c] &&
                                     forall m :: c < m < i ==> !ks[m].Comment?)
  }

  /** The component and the remembered comment at an entry line are what
      `ReadsAsEntry` describes. */
  lemma EntryRead(lines: seq<string>, ks: seq<LineKind>, i: nat)
    requires |ks| == |lines| && i < |lines| && IsEntry(ks, i)
    ensures ReadsAsEntry(lines, ks, i, CompAt(ks, i).value, RememberedComment(lines, ks, i))
  {
    CompAtOpened(ks, i);
    var h :| 0 <= h < i && OpenedAt(ks, h, i);
    CommentIsLatest(ks, h, i);
  }
}
