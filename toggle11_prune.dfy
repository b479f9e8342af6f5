/** Toggle maker v1.1.0: `prune_unused_toggles`, the final pass that drops
    the declarations of variables no guard uses any more. It collects the
    guarded variables once, then deletes the unused `persist` lines of the
    `[Constants]` body and the key sections whose cycle variable is unused. */
module Toggle11Prune {
  import opened PyText
  import opened IniPatterns
  import opened IniSections

  // ---------------------------------------------------------------------
  // Subsequences.

  /** `f` picks, in increasing order, the positions of `b` that make up `a`. */
  ghost predicate Embeds<T>(a: seq<T>, b: seq<T>, f: seq<nat>) {
    |f| == |a| &&
    (forall k :: 0 <= k < |f| ==> f[k] < |b| && a[k] == b[f[k]]) &&
    (forall k, l :: 0 <= k < l < |f| ==> f[k] < f[l])
  }

  /** `a` is `b` with some elements deleted. */
  ghost predicate IsSubseq<T>(a: seq<T>, b: seq<T>) {
    exists f :: Embeds(a, b, f)
  }

  function Ids(n: nat): (f: seq<nat>)
    ensures |f| == n && forall k :: 0 <= k < n ==> f[k] == k
  {
    seq(n, k => k)
  }

  lemma SubseqRefl<T>(a: seq<T>)
    ensures IsSubseq(a, a)
  {
    assert Embeds(a, a, Ids(|a|));
  }

  lemma SubseqTrans<T>(a: seq<T>, b: seq<T>, c: seq<T>)
    requires IsSubseq(a, b) && IsSubseq(b, c)
    ensures IsSubseq(a, c)
  {
    var f :| Embeds(a, b, f);
    var g :| Embeds(b, c, g);
    var h := seq(|f|, k requires 0 <= k < |f| => g[f[k]]);
    assert Embeds(a, c, h);
  }

  /** Deleting the range `i..j` leaves a subsequence. */
  lemma SubseqCut<T>(b: seq<T>, i: nat, j: nat)
    requires i <= j <= |b|
    ensures IsSubseq(b[..i] + b[j..], b)
  {
    var a := b[..i] + b[j..];
    var f := seq(|a|, k requires 0 <= k < |a| => if k < i then k else k + (j - i));
    assert Embeds(a, b, f);
  }

  /** A subsequence keeps its shape under a map of the elements. */
  lemma SubseqTexts(a: seq<PLine>, b: seq<PLine>)
    requires IsSubseq(a, b)
    ensures IsSubseq(Texts(a), Texts(b))
  {
    var f :| Embeds(a, b, f);
    assert Embeds(Texts(a), Texts(b), f);
  }

  lemma SubseqConcat<T>(p: seq<T>, a: seq<T>, b: seq<T>, q: seq<T>)
    requires IsSubseq(a, b)
    ensures IsSubseq(p + a + q, p + b + q)
  {
    var f :| Embeds(a, b, f);
    var x := p + a + q;
    var g := seq(|x|, k requires 0 <= k < |x| =>
                   if k < |p| then k else if k < |p| + |a| then |p| + f[k - |p|] else k - |a| + |b|);
    assert Embeds(x, p + b + q, g);
  }

  // ---------------------------------------------------------------------
  // The variables still in use.

  /** The variable of the first `if $v == 0` on any line (an unanchored search). */
  function UsedIn(lines: seq<string>): set<string> {
    set i | 0 <= i < |lines| && GuardUse(lines[i]).Some? :: GuardUse(lines[i]).value
  }

  method CollectUsedVars(lines: seq<string>) returns (used: set<string>)
    ensures used == UsedIn(lines)
  {
    used := {};
    var i := 0;
    while i < |lines|
      invariant 0 <= i <= |lines|
      invariant used == UsedIn(lines[..i])
    {
      var m := GuardUse(lines[i]);
      if m.Some? {
        used := used + {m.value};
      }
      assert lines[..i + 1] == lines[..i] + [lines[i]];
      UsedInAppend(lines[..i], lines[i]);
      i := i + 1;
    }
    assert lines[..|lines|] == lines;
  }

  lemma UsedInAppend(lines: seq<string>, line: string)
    ensures UsedIn(lines + [line]) ==
            UsedIn(lines) + (if GuardUse(line).Some? then {GuardUse(line).value} else {})
  {
    var s := lines + [line];
    forall v | v in UsedIn(s) ensures v in UsedIn(lines) || GuardUse(line) == Some(v) {
      var i :| 0 <= i < |s| && GuardUse(s[i]).Some? && GuardUse(s[i]).value == v;
      if i < |lines| {
        assert s[i] == lines[i];
      }
    }
    forall v | v in UsedIn(lines) ensures v in UsedIn(s) {
      var i :| 0 <= i < |lines| && GuardUse(lines[i]).Some? && GuardUse(lines[i]).value == v;
      assert s[i] == lines[i];
    }
    if GuardUse(line).Some? {
      assert s[|lines|] == line;
    }
  }

  // ---------------------------------------------------------------------
  // The `[Constants]` pass: from the end of the body up to the `[Constants]`
  // line, every line declaring `persist $v` for an unused `v` is popped.

  predicate UnusedPersist(line: string, used: set<string>) {
    PersistVar(line).Some? && PersistVar(line).value !in used
  }

  /** The lines of `s` that are not unused `persist` declarations, in order. */
  function Keep(s: seq<string>, used: set<string>): seq<string>
    decreases |s|
  {
    if s == [] then []
    else (if UnusedPersist(s[0], used) then [] else [s[0]]) + Keep(s[1..], used)
  }

  function PruneConstants(lines: seq<string>, used: set<string>): seq<string> {
    match ConstantsIndex(lines)
    case None => lines
    case Some(c) =>
      var end := NextHeader(lines, c + 1);
      lines[..c] + Keep(lines[c..end], used) + lines[end..]
  }

  /** The `[Constants]` pass: find the section, then pop its unused
      declarations. */
  method PruneConstantsLoop(lines: seq<string>, used: set<string>) returns (out: seq<string>)
    ensures out == PruneConstants(lines, used)
  {
    out := lines;
    var ci := ConstantsIndex(lines);
    if ci.Some? {
      var c := ci.value;
      var end := NextHeader(lines, c + 1);
      out := PopUnused(lines, c, end, used);
    }
  }

  /** The descending pop loop over `lines[c..end]`. */
  method PopUnused(lines: seq<string>, c: nat, end: nat, used: set<string>) returns (out: seq<string>)
    requires c <= end <= |lines|
    ensures out == lines[..c] + Keep(lines[c..end], used) + lines[end..]
  {
    out := lines;
    assert lines[end..end] == [];
    assert lines == lines[..end] + lines[end..];
    var i := end;
    while i > c
      invariant c <= i <= end
      invariant out == lines[..i] + Keep(lines[i..end], used) + lines[end..]
    {
      i := i - 1;
      KeepStep(lines[i..end], used);
      assert lines[i..end][1..] == lines[i + 1..end];
      PopSplit(lines[..i + 1], Keep(lines[i + 1..end], used), lines[end..]);
      assert lines[..i + 1][..i] == lines[..i];
      if UnusedPersist(out[i], used) {
        out := out[..i] + out[i + 1..];
      }
    }
  }

  lemma KeepStep(s: seq<string>, used: set<string>)
    requires s != []
    ensures Keep(s, used) == (if UnusedPersist(s[0], used) then [] else [s[0]]) + Keep(s[1..], used)
  {
  }

  /** Popping the last element of `a` out of `a + k + q`. */
  lemma PopSplit<T>(a: seq<T>, k: seq<T>, q: seq<T>)
    requires |a| > 0
    ensures var i := |a| - 1;
            var x := a + k + q;
            x[i] == a[i] && x[..i] + x[i + 1..] == a[..i] + k + q && x == a[..i] + ([a[i]] + k) + q
  {
  }

  lemma {:induction false} KeepSubseq(s: seq<string>, used: set<string>)
    ensures IsSubseq(Keep(s, used), s)
    decreases |s|
  {
    if s == [] {
      SubseqRefl(s);
    } else {
      KeepSubseq(s[1..], used);
      SubseqCons(s[0], Keep(s[1..], used), s[1..], !UnusedPersist(s[0], used));
      assert s == [s[0]] + s[1..];
    }
  }

  /** Putting the same element in front of both sides, or only in front of
      the longer one, keeps a subsequence. */
  lemma SubseqCons<T>(x: T, a: seq<T>, b: seq<T>, keep: bool)
    requires IsSubseq(a, b)
    ensures IsSubseq((if keep then [x] else []) + a, [x] + b)
  {
    var f :| Embeds(a, b, f);
    var g := seq(|f|, k requires 0 <= k < |f| => f[k] + 1);
    if keep {
      assert Embeds([x] + a, [x] + b, [0] + g);
    } else {
      assert Embeds([] + a, [x] + b, g);
    }
  }

  /** `Keep` drops exactly the unused declarations. */
  lemma {:induction false} KeepExact(s: seq<string>, used: set<string>)
    ensures forall k :: 0 <= k < |Keep(s, used)| ==> !UnusedPersist(Keep(s, used)[k], used)
    ensures forall x :: x in Keep(s, used) <==> x in s && !UnusedPersist(x, used)
    decreases |s|
  {
    if s != [] {
      KeepExact(s[1..], used);
      assert s == [s[0]] + s[1..];
    }
  }

  /** After the pass, the `[Constants]` section is still there, its body
      holds no `persist` line of an unused variable, and every line outside the
      body is unchanged. */
  lemma PruneConstantsSpec(lines: seq<string>, used: set<string>)
    ensures IsSubseq(PruneConstants(lines, used), lines)
    ensures ConstantsIndex(lines).None? ==> PruneConstants(lines, used) == lines
    ensures ConstantsIndex(lines).Some? ==>
              var c := ConstantsIndex(lines).value;
              var end := NextHeader(lines, c + 1);
              var r := PruneConstants(lines, used);
              var kept := Keep(lines[c..end], used);
              r[..c] == lines[..c] && r[c + |kept|..] == lines[end..] &&
              c < |r| && r[c] == lines[c] &&
              forall k :: c <= k < c + |kept| ==> !UnusedPersist(r[k], used)
  {
    match ConstantsIndex(lines)
    case None => SubseqRefl(lines);
    case Some(c) => KeepSegment(lines, c, NextHeader(lines, c + 1), used);
  }

  lemma KeepSegment(lines: seq<string>, c: nat, end: nat, used: set<string>)
    requires c < end <= |lines| && IsConstantsHeader(lines[c])
    ensures var kept := Keep(lines[c..end], used);
            var r := lines[..c] + kept + lines[end..];
            IsSubseq(r, lines) &&
            r[..c] == lines[..c] && r[c + |kept|..] == lines[end..] &&
            c < |r| && r[c] == lines[c] &&
            forall k :: c <= k < c + |kept| ==> !UnusedPersist(r[k], used)
  {
    var body := lines[c..end];
    assert body[0] == lines[c];
    KeepHead(body, used);
    KeepSegmentParts(lines, c, end, used, body, Keep(body, used), lines[..c] + Keep(body, used) + lines[end..]);
  }

  lemma KeepSegmentParts(lines: seq<string>, c: nat, end: nat, used: set<string>,
                         body: seq<string>, kept: seq<string>, r: seq<string>)
    requires c < end <= |lines| && body == lines[c..end] && kept == Keep(body, used)
    requires r == lines[..c] + kept + lines[end..]
    requires |kept| > 0 && kept[0] == lines[c]
    ensures IsSubseq(r, lines) &&
            r[..c] == lines[..c] && r[c + |kept|..] == lines[end..] &&
            c < |r| && r[c] == lines[c] &&
            forall k :: c <= k < c + |kept| ==> !UnusedPersist(r[k], used)
  {
    KeepSubseq(body, used);
    SubseqConcat(lines[..c], kept, body, lines[end..]);
    assert lines[..c] + body + lines[end..] == lines;
    KeepExact(body, used);
    ConcatParts(lines[..c], kept, lines[end..], r);
  }

  /** The three parts of a concatenation are where they should be. */
  lemma ConcatParts(a: seq<string>, b: seq<string>, z: seq<string>, r: seq<string>)
    requires r == a + b + z
    ensures |r| == |a| + |b| + |z| && r[..|a|] == a && r[|a| + |b|..] == z
    ensures forall k :: |a| <= k < |a| + |b| ==> r[k] == b[k - |a|]
  {
  }

  /** The `[Constants]` header itself is no `persist` line and stays first. */
  lemma KeepHead(body: seq<string>, used: set<string>)
    requires |body| > 0 && IsConstantsHeader(body[0])
    ensures |Keep(body, used)| > 0 && Keep(body, used)[0] == body[0]
  {
    ConstantsNotPersist(body[0]);
  }

  /** A line that reads `[constants]` in some case has no `p` in it, so no
      `persist` either. */
  lemma ConstantsNotPersist(line: string)
    requires IsConstantsHeader(line)
    ensures PersistVar(line).None?
  {
    var r := RStrip(line);
    var t := LStrip(r);
    NoLowerP(t);
    forall k | 0 <= k < |line| ensures line[k] != 'p' {
      if line[k] == 'p' {
        RStripKeeps(line, k);
        var m :| 0 <= m < |r| && r[m] == 'p';
        LStripKeeps(r, m);
      }
    }
    NoPersistFrom(line, 0);
  }

  lemma NoLowerP(t: string)
    requires Lower(t) == "[constants]"
    ensures 'p' !in t
  {
    forall n | 0 <= n < |t| ensures t[n] != 'p' {
      assert Lower(t)[n] == LowerChar(t[n]);
    }
  }

  lemma {:induction false} LStripKeeps(s: string, k: nat)
    requires k < |s| && !IsSpace(s[k])
    ensures s[k] in LStrip(s)
    decreases |s|
  {
    if IsSpace(s[0]) {
      assert s[1..][k - 1] == s[k];
      LStripKeeps(s[1..], k - 1);
    }
  }

  lemma {:induction false} RStripKeeps(s: string, k: nat)
    requires k < |s| && !IsSpace(s[k])
    ensures s[k] in RStrip(s)
    decreases |s|
  {
    if IsSpace(s[|s| - 1]) {
      assert s[..|s| - 1][k] == s[k];
      RStripKeeps(s[..|s| - 1], k);
    }
  }

  lemma {:induction false} NoPersistFrom(s: string, p: nat)
    requires p <= |s| && forall k :: 0 <= k < |s| ==> s[k] != 'p'
    ensures PersistFrom(s, p).None?
    decreases |s| - p
  {
    assert !Literal(s, p, "persist") by {
      if p + 7 <= |s| {
        assert s[p..p + 7][0] == s[p];
      }
    }
    if p < |s| {
      NoPersistFrom(s, p + 1);
    }
  }

  // ---------------------------------------------------------------------
  // The key pass. Each line is classified once: its text, whether it starts
  // a key section (`[key`, any case, after stripping), whether it is a
  // header, and the variable of the `$v = 0,1` it contains, if any. Two
  // more fields, which the pass itself does not read, say whether the line
  // reads `[constants]` and which variable it declares `persist`.

  datatype PLine = PLine(text: string, keyStart: bool, header: bool, decl: Option<string>,
                         constants: bool, persist: Option<string>)

  function PLineOf(line: string): (p: PLine)
    ensures p.text == line
    ensures p.keyStart <==> StartsWith(Lower(Strip(line)), "[key")
    ensures p.header <==> IsHeader(line)
    ensures p.decl == KeyDeclVar(line)
    ensures p.constants <==> IsConstantsHeader(line)
    ensures p.persist == PersistVar(line)
  {
    PLine(line, StartsWith(Lower(Strip(line)), "[key"), IsHeader(line), KeyDeclVar(line),
          IsConstantsHeader(line), PersistVar(line))
  }

  function PScan(lines: seq<string>): (pl: seq<PLine>)
    ensures |pl| == |lines| && forall i :: 0 <= i < |lines| ==> pl[i] == PLineOf(lines[i])
  {
    seq(|lines|, i requires 0 <= i < |lines| => PLineOf(lines[i]))
  }

  function Texts(pl: seq<PLine>): (r: seq<string>)
    ensures |r| == |pl| && forall i :: 0 <= i < |pl| ==> r[i] == pl[i].text
  {
    seq(|pl|, i requires 0 <= i < |pl| => pl[i].text)
  }

  /** The first header at or after `from`, or the end. */
  function NextHead(pl: seq<PLine>, from: nat): (r: nat)
    ensures r <= |pl| && (from <= |pl| ==> from <= r)
    ensures r < |pl| ==> pl[r].header
    ensures forall k :: from <= k < r ==> !pl[k].header
    decreases |pl| - from
  {
    if from >= |pl| then |pl|
    else if pl[from].header then from
    else NextHead(pl, from + 1)
  }

  /** The variable of the last cycle declaration among `pl[a..b]`. */
  function LastDecl(pl: seq<PLine>, a: nat, b: nat): Option<string>
    requires a <= b <= |pl|
    decreases b - a
  {
    if a == b then None
    else if pl[b - 1].decl.Some? then pl[b - 1].decl
    else LastDecl(pl, a, b - 1)
  }

  /** The key section that starts at `i` names an unused variable. */
  predicate Doomed(pl: seq<PLine>, used: set<string>, i: nat)
    requires i < |pl|
  {
    var d := LastDecl(pl, i + 1, NextHead(pl, i + 1));
    pl[i].keyStart && d.Some? && d.value !in used
  }

  /** The walk from `i`: a doomed section is cut out (the walk stays at `i`),
      any other line moves it on by one. */
  function PruneKeysFrom(pl: seq<PLine>, used: set<string>, i: nat): seq<PLine>
    decreases |pl| - i
  {
    if i >= |pl| then pl
    else if Doomed(pl, used, i) then
      PruneKeysFrom(pl[..i] + pl[NextHead(pl, i + 1)..], used, i)
    else PruneKeysFrom(pl, used, i + 1)
  }

  function PruneKeys(lines: seq<string>, used: set<string>): seq<string> {
    Texts(PruneKeysFrom(PScan(lines), used, 0))
  }

  /** The walk of the key pass over the classified lines. */
  method PruneKeysLoop(pl: seq<PLine>, used: set<string>) returns (out: seq<PLine>)
    ensures out == PruneKeysFrom(pl, used, 0)
  {
    out := pl;
    var i := 0;
    while i < |out|
      invariant 0 <= i <= |out|
      invariant PruneKeysFrom(out, used, i) == PruneKeysFrom(pl, used, 0)
      decreases |out| - i
    {
      if out[i].keyStart {
        var j := i + 1;
        var keyVar: Option<string> := None;
        while j < |out| && !out[j].header
          invariant i + 1 <= j <= |out|
          invariant NextHead(out, j) == NextHead(out, i + 1)
          invariant keyVar == LastDecl(out, i + 1, j)
        {
          if out[j].decl.Some? {
            keyVar := out[j].decl;
          }
          j := j + 1;
        }
        if keyVar.Some? && keyVar.value !in used {
          out := out[..i] + out[j..];
          continue;
        }
      }
      i := i + 1;
    }
  }

  // ---------------------------------------------------------------------
  // What the key pass leaves.

  /** The key section starting at `k` is kept: it is no `[key` line, or its
      last cycle declaration names a used variable, or it has none. */
  predicate Clean(pl: seq<PLine>, used: set<string>, k: nat)
    requires k < |pl|
  {
    !Doomed(pl, used, k)
  }

  lemma {:induction false} PruneKeysSubseq(pl: seq<PLine>, used: set<string>, i: nat)
    ensures IsSubseq(PruneKeysFrom(pl, used, i), pl)
    decreases |pl| - i
  {
    if i >= |pl| {
      SubseqRefl(pl);
    } else if Doomed(pl, used, i) {
      var cut := pl[..i] + pl[NextHead(pl, i + 1)..];
      PruneKeysSubseq(cut, used, i);
      SubseqCut(pl, i, NextHead(pl, i + 1));
      SubseqTrans(PruneKeysFrom(cut, used, i), cut, pl);
    } else {
      PruneKeysSubseq(pl, used, i + 1);
    }
  }

  /** Nothing doomed is left: every line of the result that starts a key
      section starts one whose last cycle variable is used, or that has none. */
  lemma {:induction false} PruneKeysClean(pl: seq<PLine>, used: set<string>, i: nat)
    requires i <= |pl|
    requires forall k :: 0 <= k < i ==> Clean(pl, used, k)
    ensures forall k :: 0 <= k < |PruneKeysFrom(pl, used, i)| ==> Clean(PruneKeysFrom(pl, used, i), used, k)
    decreases |pl| - i
  {
    if i < |pl| {
      if Doomed(pl, used, i) {
        var j := NextHead(pl, i + 1);
        var cut := pl[..i] + pl[j..];
        forall k | 0 <= k < i ensures Clean(cut, used, k) {
          CutKeepsClean(pl, used, i, k);
        }
        PruneKeysClean(cut, used, i);
        assert PruneKeysFrom(pl, used, i) == PruneKeysFrom(cut, used, i);
      } else {
        PruneKeysClean(pl, used, i + 1);
        assert PruneKeysFrom(pl, used, i) == PruneKeysFrom(pl, used, i + 1);
      }
    }
  }

  /** Cutting a doomed section at `i` keeps every earlier line clean. */
  lemma CutKeepsClean(pl: seq<PLine>, used: set<string>, i: nat, k: nat)
    requires k < i < |pl| && Doomed(pl, used, i) && Clean(pl, used, k)
    ensures Clean(pl[..i] + pl[NextHead(pl, i + 1)..], used, k)
  {
    if pl[k].keyStart {
      if NextHead(pl, k + 1) <= i {
        CutBefore(pl, i, k);
      } else {
        ThroughDoomed(pl, used, i, k);
      }
    } else {
      assert (pl[..i] + pl[NextHead(pl, i + 1)..])[k] == pl[k];
    }
  }

  /** A section of `k` that ends at or before `i` is untouched by the cut. */
  lemma CutBefore(pl: seq<PLine>, i: nat, k: nat)
    requires k < i < |pl| && NextHead(pl, k + 1) <= i
    ensures var cut := pl[..i] + pl[NextHead(pl, i + 1)..];
            var e := NextHead(pl, k + 1);
            k < |cut| && cut[k] == pl[k] && e <= |cut| &&
            NextHead(cut, k + 1) == e && LastDecl(cut, k + 1, e) == LastDecl(pl, k + 1, e)
  {
    var j := NextHead(pl, i + 1);
    var cut := pl[..i] + pl[j..];
    var e := NextHead(pl, k + 1);
    assert cut[..i] == pl[..i];
    assert e == i ==> i == |cut| || cut[i].header by {
      if i < |cut| {
        assert cut[i] == pl[j];
      }
    }
    NextHeadPrefix(pl, cut, k + 1, e, i);
    LastDeclPrefix(pl, cut, k + 1, e, i);
  }

  /** A key section of `k` that runs through the doomed section at `i` ends
      where that one ends and shares its last declaration, so it is doomed. */
  lemma ThroughDoomed(pl: seq<PLine>, used: set<string>, i: nat, k: nat)
    requires k < i < |pl| && pl[k].keyStart && NextHead(pl, k + 1) > i && Doomed(pl, used, i)
    ensures Doomed(pl, used, k)
  {
    var e := NextHead(pl, k + 1);
    NextHeadThrough(pl, k + 1, i + 1, e);
    LastDeclSplit(pl, k + 1, i + 1, e);
  }

  /** Two lists that agree below `m` agree on a header search that stops there. */
  lemma {:induction false} NextHeadPrefix(a: seq<PLine>, b: seq<PLine>, from: nat, e: nat, m: nat)
    requires from <= e && e <= m && m <= |a| && m <= |b| && a[..m] == b[..m]
    requires NextHead(a, from) == e && (e < m || (e == m && (m == |b| || b[m].header)))
    ensures NextHead(b, from) == e
    decreases e - from
  {
    assert forall t :: 0 <= t < m ==> a[t] == b[t] by {
      forall t | 0 <= t < m ensures a[t] == b[t] {
        assert a[..m][t] == a[t] && b[..m][t] == b[t];
      }
    }
    if from < e {
      NextHeadPrefix(a, b, from + 1, e, m);
    }
  }

  lemma {:induction false} LastDeclPrefix(a: seq<PLine>, b: seq<PLine>, from: nat, e: nat, m: nat)
    requires from <= e <= m <= |a| && m <= |b| && a[..m] == b[..m]
    ensures LastDecl(a, from, e) == LastDecl(b, from, e)
    decreases e - from
  {
    if from < e {
      assert a[e - 1] == a[..m][e - 1] && b[e - 1] == b[..m][e - 1];
      LastDeclPrefix(a, b, from, e - 1, m);
    }
  }

  /** A header search that passes `mid` ends where the one from `mid` ends. */
  lemma {:induction false} NextHeadThrough(pl: seq<PLine>, from: nat, mid: nat, e: nat)
    requires from <= mid <= e && NextHead(pl, from) == e
    ensures NextHead(pl, mid) == e
    decreases mid - from
  {
    if from < mid {
      NextHeadThrough(pl, from + 1, mid, e);
    }
  }

  /** The last declaration of a range is that of its tail when the tail has one. */
  lemma {:induction false} LastDeclSplit(pl: seq<PLine>, a: nat, m: nat, b: nat)
    requires a <= m <= b <= |pl| && LastDecl(pl, m, b).Some?
    ensures LastDecl(pl, a, b) == LastDecl(pl, m, b)
    decreases b - m
  {
    if pl[b - 1].decl.None? {
      LastDeclSplit(pl, a, m, b - 1);
    }
  }

  /** A list with nothing doomed from `i` on comes back unchanged. */
  lemma {:induction false} PruneKeysNoop(pl: seq<PLine>, used: set<string>, i: nat)
    requires forall k :: i <= k < |pl| ==> Clean(pl, used, k)
    ensures PruneKeysFrom(pl, used, i) == pl
    decreases |pl| - i
  {
    if i < |pl| {
      assert Clean(pl, used, i);
      PruneKeysNoop(pl, used, i + 1);
      assert PruneKeysFrom(pl, used, i) == PruneKeysFrom(pl, used, i + 1);
    }
  }

  /** A header-free stretch of the classified lines ends where the next header is. */
  lemma {:induction false} NextHeadAt(pl: seq<PLine>, from: nat, r: nat)
    requires from <= r <= |pl|
    requires r == |pl| || pl[r].header
    requires forall k :: from <= k < r ==> !pl[k].header
    ensures NextHead(pl, from) == r
    decreases r - from
  {
    if from < r {
      NextHeadAt(pl, from + 1, r);
    }
  }

  /** The header search stops at or before any header it passes. */
  lemma NextHeadBefore(pl: seq<PLine>, from: nat, m: nat)
    requires from <= m < |pl| && pl[m].header
    ensures NextHead(pl, from) <= m
  {
  }

  // ---------------------------------------------------------------------
  // What the key pass keeps: the `[Constants]` section with its body, and
  // every section whose last cycle declaration is used or that has none.

  /** `c` is the first line of `pl` reading `[constants]`; it is a header that
      starts no key section, and no line of its body declares an unused
      `persist` variable. */
  predicate ConstantsClean(pl: seq<PLine>, used: set<string>, c: nat) {
    c < |pl| && pl[c].constants && pl[c].header && !pl[c].keyStart &&
    (forall k :: 0 <= k < c ==> !pl[k].constants) &&
    (forall k :: c < k < NextHead(pl, c + 1) ==> !Unused(pl[k], used))
  }

  /** The classified line declares `persist` a variable no guard uses. */
  predicate Unused(p: PLine, used: set<string>) {
    p.persist.Some? && p.persist.value !in used
  }

  /** Cutting a doomed section keeps the `[Constants]` header (shifted up when
      the cut lies above it) and keeps its body clean: a cut inside the body
      only removes the body's tail. */
  lemma CutKeepsConstants(pl: seq<PLine>, used: set<string>, i: nat, c: nat) returns (c1: nat)
    requires i < |pl| && Doomed(pl, used, i) && ConstantsClean(pl, used, c)
    ensures var cut := pl[..i] + pl[NextHead(pl, i + 1)..];
            ConstantsClean(cut, used, c1) && cut[c1] == pl[c]
  {
    if i < c {
      c1 := CutAboveConstants(pl, used, i, c);
    } else {
      CutBelowConstants(pl, used, i, c);
      c1 := c;
    }
  }

  lemma CutAboveConstants(pl: seq<PLine>, used: set<string>, i: nat, c: nat) returns (c1: nat)
    requires i < c && ConstantsClean(pl, used, c)
    ensures var cut := pl[..i] + pl[NextHead(pl, i + 1)..];
            ConstantsClean(cut, used, c1) && cut[c1] == pl[c]
  {
    var h := NextHead(pl, i + 1);
    var cut := pl[..i] + pl[h..];
    var e := NextHead(pl, c + 1);
    NextHeadBefore(pl, i + 1, c);
    var d := h - i;
    c1 := c - d;
    assert forall k :: 0 <= k < i ==> cut[k] == pl[k];
    assert forall k :: i <= k < |cut| ==> cut[k] == pl[k + d];
    NextHeadAt(cut, c1 + 1, e - d);
  }

  lemma CutBelowConstants(pl: seq<PLine>, used: set<string>, i: nat, c: nat)
    requires c < i < |pl| && ConstantsClean(pl, used, c)
    ensures var cut := pl[..i] + pl[NextHead(pl, i + 1)..];
            ConstantsClean(cut, used, c) && cut[c] == pl[c]
  {
    var h := NextHead(pl, i + 1);
    var cut := pl[..i] + pl[h..];
    var e := NextHead(pl, c + 1);
    assert forall k :: 0 <= k < i ==> cut[k] == pl[k];
    var e1 := if e <= i then e else i;
    if h < |pl| {
      assert cut[i] == pl[h];
    }
    NextHeadAt(cut, c + 1, e1);
  }

  /** The key pass keeps the `[Constants]` header and a clean body. */
  lemma {:induction false} PruneKeysConstants(pl: seq<PLine>, used: set<string>, i: nat, c: nat) returns (c1: nat)
    requires ConstantsClean(pl, used, c)
    ensures ConstantsClean(PruneKeysFrom(pl, used, i), used, c1) && PruneKeysFrom(pl, used, i)[c1] == pl[c]
    decreases |pl| - i
  {
    if i >= |pl| {
      c1 := c;
    } else if Doomed(pl, used, i) {
      var cut := pl[..i] + pl[NextHead(pl, i + 1)..];
      var c0 := CutKeepsConstants(pl, used, i, c);
      c1 := PruneKeysConstants(cut, used, i, c0);
    } else {
      c1 := PruneKeysConstants(pl, used, i + 1, c);
    }
  }

  /** `s` stands at `p` in `pl` and ends right before a header or at the end. */
  predicate SectionAt(pl: seq<PLine>, p: nat, s: seq<PLine>) {
    p + |s| <= |pl| && (forall k :: 0 <= k < |s| ==> pl[p + k] == s[k]) &&
    (p + |s| == |pl| || pl[p + |s|].header)
  }

  /** `s` is one whole section: a header, then lines that are no header; its
      last cycle declaration, if it has one, names a used variable. */
  predicate KeptSection(s: seq<PLine>, used: set<string>) {
    |s| > 0 && s[0].header && (forall k :: 1 <= k < |s| ==> !s[k].header) &&
    (LastDecl(s, 1, |s|).None? || LastDecl(s, 1, |s|).value in used)
  }

  lemma {:induction false} LastDeclAt(pl: seq<PLine>, p: nat, s: seq<PLine>, a: nat, b: nat)
    requires p + |s| <= |pl| && forall k :: 0 <= k < |s| ==> pl[p + k] == s[k]
    requires a <= b <= |s|
    ensures LastDecl(pl, p + a, p + b) == LastDecl(s, a, b)
    decreases b - a
  {
    if a < b {
      assert pl[p + (b - 1)] == s[b - 1];
      LastDeclAt(pl, p, s, a, b - 1);
    }
  }

  /** Where a section in place ends, and what its last declaration is. */
  lemma SectionFacts(pl: seq<PLine>, p: nat, s: seq<PLine>, used: set<string>)
    requires SectionAt(pl, p, s) && KeptSection(s, used)
    ensures NextHead(pl, p + 1) == p + |s| && LastDecl(pl, p + 1, p + |s|) == LastDecl(s, 1, |s|)
  {
    forall k | p + 1 <= k < p + |s| ensures !pl[k].header {
      assert pl[p + (k - p)] == s[k - p];
    }
    NextHeadAt(pl, p + 1, p + |s|);
    LastDeclAt(pl, p, s, 1, |s|);
  }

  /** No line of a kept section starts a doomed one: a `[key` line inside it
      ends where the section ends and, when it has a declaration after it,
      shares the section's last one. */
  lemma InsideNotDoomed(pl: seq<PLine>, used: set<string>, p: nat, s: seq<PLine>, i: nat)
    requires SectionAt(pl, p, s) && KeptSection(s, used) && p <= i < p + |s|
    ensures !Doomed(pl, used, i)
  {
    SectionFacts(pl, p, s, used);
    if i > p {
      NextHeadThrough(pl, p + 1, i + 1, p + |s|);
      if LastDecl(pl, i + 1, p + |s|).Some? {
        LastDeclSplit(pl, p + 1, i + 1, p + |s|);
      }
    }
  }

  /** Cutting a doomed section above or below a kept one leaves it whole,
      shifted up by the cut when the cut lies above it. */
  lemma CutKeepsSection(pl: seq<PLine>, used: set<string>, i: nat, p: nat, s: seq<PLine>) returns (p1: nat)
    requires i < |pl| && Doomed(pl, used, i) && SectionAt(pl, p, s) && KeptSection(s, used)
    requires i < p || p + |s| <= i
    ensures SectionAt(pl[..i] + pl[NextHead(pl, i + 1)..], p1, s)
  {
    var h := NextHead(pl, i + 1);
    if i < p {
      assert pl[p + 0] == s[0];
      NextHeadBefore(pl, i + 1, p);
      p1 := p - (h - i);
      CutRunAbove(pl, i, h, p, s);
    } else {
      p1 := p;
      CutRunBelow(pl, i, h, p, s);
    }
  }

  /** Cutting `pl[i..h]` above a run shifts it up by `h - i`. */
  lemma CutRunAbove(pl: seq<PLine>, i: nat, h: nat, p: nat, s: seq<PLine>)
    requires i < h <= p && SectionAt(pl, p, s)
    ensures SectionAt(pl[..i] + pl[h..], p - (h - i), s)
  {
    var cut := pl[..i] + pl[h..];
    var d := h - i;
    assert forall k :: i <= k < |cut| ==> cut[k] == pl[k + d];
    forall k | 0 <= k < |s| ensures cut[p - d + k] == s[k] {
      assert cut[p - d + k] == pl[p + k];
    }
  }

  /** Cutting `pl[i..h]` below a run leaves it in place; the cut ends at a
      header or at the end, so the run still ends where a section ends. */
  lemma CutRunBelow(pl: seq<PLine>, i: nat, h: nat, p: nat, s: seq<PLine>)
    requires p + |s| <= i < h <= |pl| && (h < |pl| ==> pl[h].header) && SectionAt(pl, p, s)
    ensures SectionAt(pl[..i] + pl[h..], p, s)
  {
    var cut := pl[..i] + pl[h..];
    assert forall k :: 0 <= k < i ==> cut[k] == pl[k];
    if h < |pl| {
      assert cut[i] == pl[h];
    }
  }

  /** The key pass leaves a kept section whole. */
  lemma {:induction false} PruneKeysKeeps(pl: seq<PLine>, used: set<string>, i: nat, p: nat, s: seq<PLine>) returns (p1: nat)
    requires SectionAt(pl, p, s) && KeptSection(s, used)
    ensures SectionAt(PruneKeysFrom(pl, used, i), p1, s)
    decreases |pl| - i
  {
    if i >= |pl| {
      p1 := p;
    } else if p <= i < p + |s| {
      InsideNotDoomed(pl, used, p, s, i);
      p1 := PruneKeysKeeps(pl, used, i + 1, p, s);
    } else if Doomed(pl, used, i) {
      var p0 := CutKeepsSection(pl, used, i, p, s);
      p1 := PruneKeysKeeps(pl[..i] + pl[NextHead(pl, i + 1)..], used, i, p0, s);
    } else {
      p1 := PruneKeysKeeps(pl, used, i + 1, p, s);
    }
  }

  // ---------------------------------------------------------------------
  // The whole pass.

  function PruneSpec(lines: seq<string>): seq<string> {
    var used := UsedIn(lines);
    PruneKeys(PruneConstants(lines, used), used)
  }

  /** `prune_unused_toggles`: the used variables are computed once from the
      input, then the `[Constants]` pass and the key pass run. */
  method PruneUnusedToggles(lines: seq<string>) returns (out: seq<string>)
    ensures out == PruneSpec(lines)
  {
    var used := CollectUsedVars(lines);
    out := PruneConstantsLoop(lines, used);
    var pl := PScan(out);
    pl := PruneKeysLoop(pl, used);
    out := Texts(pl);
  }

  lemma TextsScan(lines: seq<string>)
    ensures Texts(PScan(lines)) == lines
  {
  }

  /** The pass only deletes lines, and after it no line starts a key section
      whose last cycle declaration names a variable no guard of the input
      uses. */
  lemma PruneSpecProperties(lines: seq<string>)
    ensures IsSubseq(PruneSpec(lines), lines)
    ensures forall k :: 0 <= k < |PruneSpec(lines)| ==> Clean(PScan(PruneSpec(lines)), UsedIn(lines), k)
    ensures ConstantsIndex(lines).None? ==> ConstantsIndex(PruneSpec(lines)).None?
    ensures ConstantsIndex(lines).Some? ==>
              var out := PruneSpec(lines);
              ConstantsIndex(out).Some? &&
              out[ConstantsIndex(out).value] == lines[ConstantsIndex(lines).value] &&
              forall k :: ConstantsIndex(out).value < k < NextHeader(out, ConstantsIndex(out).value + 1) ==>
                            !UnusedPersist(out[k], UsedIn(lines))
  {
    PruneSpecDeletes(lines);
    if ConstantsIndex(lines).Some? {
      var c1 := PruneSpecConstants(lines);
    } else {
      PruneSpecNoConstants(lines);
    }
  }

  /** The two passes together only delete lines and leave nothing doomed. */
  lemma PruneSpecDeletes(lines: seq<string>)
    ensures IsSubseq(PruneSpec(lines), lines)
    ensures forall k :: 0 <= k < |PruneSpec(lines)| ==> Clean(PScan(PruneSpec(lines)), UsedIn(lines), k)
  {
    var used := UsedIn(lines);
    var c := PruneConstants(lines, used);
    PruneConstantsSpec(lines, used);
    KeyPassProperties(c, used);
    SubseqTrans(PruneKeys(c, used), c, lines);
  }

  /** The key pass alone: it only deletes lines and leaves nothing doomed. */
  lemma KeyPassProperties(c: seq<string>, used: set<string>)
    ensures IsSubseq(PruneKeys(c, used), c)
    ensures forall k :: 0 <= k < |PruneKeys(c, used)| ==> Clean(PScan(PruneKeys(c, used)), used, k)
  {
    var pl := PScan(c);
    var q := PruneKeysFrom(pl, used, 0);
    PruneKeysSubseq(pl, used, 0);
    SubseqTexts(q, pl);
    TextsScan(c);
    PruneKeysClean(pl, used, 0);
    ScanOfSubseq(q, pl, c);
  }

  /** A subsequence of a classified list is the classification of its texts. */
  lemma ScanOfSubseq(q: seq<PLine>, pl: seq<PLine>, lines: seq<string>)
    requires pl == PScan(lines) && IsSubseq(q, pl)
    ensures PScan(Texts(q)) == q
  {
    var f :| Embeds(q, pl, f);
    var t := Texts(q);
    forall k | 0 <= k < |q| ensures PScan(t)[k] == q[k] {
      assert q[k] == pl[f[k]] == PLineOf(lines[f[k]]);
    }
  }

  /** The `[Constants]` line is a header and starts no key section. */
  lemma ConstantsHeaderKind(line: string)
    requires IsConstantsHeader(line)
    ensures IsHeader(line) && !StartsWith(Lower(Strip(line)), "[key")
  {
    var s := Strip(line);
    assert Lower(s)[0] == LowerChar(s[0]) == '[';
    assert Lower(s)[10] == LowerChar(s[10]) == ']';
    assert s[..1] == "[";
    assert s[|s| - 1..] == "]";
    assert Lower(s)[1] == 'c';
  }

  /** Behind the `[Constants]` header, the kept body holds no header. */
  lemma KeptBodyNoHeader(body: seq<string>, used: set<string>)
    requires |body| > 0 && !UnusedPersist(body[0], used)
    requires forall k :: 1 <= k < |body| ==> !IsHeader(body[k])
    ensures |Keep(body, used)| > 0 && Keep(body, used)[0] == body[0]
    ensures forall k :: 1 <= k < |Keep(body, used)| ==> !IsHeader(Keep(body, used)[k])
  {
    KeepStep(body, used);
    var rest := Keep(body[1..], used);
    KeepExact(body[1..], used);
    forall k | 1 <= k < |Keep(body, used)| ensures !IsHeader(Keep(body, used)[k]) {
      var x := rest[k - 1];
      assert x in body[1..];
      var m :| 0 <= m < |body| - 1 && body[1..][m] == x;
      assert body[m + 1] == x;
    }
  }

  /** After the `[Constants]` pass the header is where it was, no earlier line
      reads `[constants]`, and the section ends after the kept body. */
  lemma PruneConstantsShape(lines: seq<string>, used: set<string>)
    requires ConstantsIndex(lines).Some?
    ensures var c := ConstantsIndex(lines).value;
            var end := NextHeader(lines, c + 1);
            var kept := Keep(lines[c..end], used);
            var r := PruneConstants(lines, used);
            c < |r| && r[c] == lines[c] && r[..c] == lines[..c] &&
            NextHeader(r, c + 1) == c + |kept| &&
            forall k :: c < k < c + |kept| ==> !UnusedPersist(r[k], used)
  {
    var c := ConstantsIndex(lines).value;
    var end := NextHeader(lines, c + 1);
    var body := lines[c..end];
    var kept := Keep(body, used);
    var r := PruneConstants(lines, used);
    PruneConstantsSpec(lines, used);
    KeptConstantsBody(lines, c, used);
    ConcatParts(lines[..c], kept, lines[end..], r);
    if c + |kept| < |r| {
      assert r[c + |kept|] == lines[end];
    }
    NextHeaderAt(r, c + 1, c + |kept|);
  }

  /** The kept `[Constants]` body opens with its header and holds no other. */
  lemma KeptConstantsBody(lines: seq<string>, c: nat, used: set<string>)
    requires c < |lines| && IsConstantsHeader(lines[c])
    ensures var kept := Keep(lines[c..NextHeader(lines, c + 1)], used);
            |kept| > 0 && kept[0] == lines[c] &&
            forall k :: 1 <= k < |kept| ==> !IsHeader(kept[k])
  {
    var body := lines[c..NextHeader(lines, c + 1)];
    ConstantsNotPersist(lines[c]);
    assert body[0] == lines[c];
    forall k | 1 <= k < |body| ensures !IsHeader(body[k]) {
      assert body[k] == lines[c + k];
    }
    KeptBodyNoHeader(body, used);
  }

  /** The classification of a file whose first `[constants]` line is `c`,
      with a clean body up to the next header. */
  lemma ScanConstantsClean(r: seq<string>, used: set<string>, c: nat)
    requires c < |r| && IsConstantsHeader(r[c])
    requires forall k :: 0 <= k < c ==> !IsConstantsHeader(r[k])
    requires forall k :: c < k < NextHeader(r, c + 1) ==> !UnusedPersist(r[k], used)
    ensures ConstantsClean(PScan(r), used, c)
  {
    ConstantsHeaderKind(r[c]);
    var pl := PScan(r);
    NextHeadAt(pl, c + 1, NextHeader(r, c + 1));
  }

  /** The first `[constants]` line is where `ConstantsIndex` finds it. */
  lemma ConstantsAt(lines: seq<string>, c: nat)
    requires c < |lines| && IsConstantsHeader(lines[c])
    requires forall k :: 0 <= k < c ==> !IsConstantsHeader(lines[k])
    ensures ConstantsIndex(lines) == Some(c)
  {
  }

  /** The whole pass keeps the `[Constants]` header and leaves its body free
      of `persist` lines of unused variables. */
  lemma PruneSpecConstants(lines: seq<string>) returns (c1: nat)
    requires ConstantsIndex(lines).Some?
    ensures var out := PruneSpec(lines);
            ConstantsIndex(out) == Some(c1) && out[c1] == lines[ConstantsIndex(lines).value] &&
            forall k :: c1 < k < NextHeader(out, c1 + 1) ==> !UnusedPersist(out[k], UsedIn(lines))
  {
    var used := UsedIn(lines);
    var c := ConstantsIndex(lines).value;
    var r := PruneConstants(lines, used);
    PruneConstantsShape(lines, used);
    forall k | 0 <= k < c ensures !IsConstantsHeader(r[k]) {
      assert r[k] == r[..c][k];
    }
    ScanConstantsClean(r, used, c);
    var pl := PScan(r);
    c1 := PruneKeysConstants(pl, used, 0, c);
    var q := PruneKeysFrom(pl, used, 0);
    var out := Texts(q);
    PruneKeysSubseq(pl, used, 0);
    ScanOfSubseq(q, pl, r);
    OutConstants(out, q, used, c1);
  }

  /** Reading the clean `[Constants]` section back from the output's texts. */
  lemma OutConstants(out: seq<string>, q: seq<PLine>, used: set<string>, c1: nat)
    requires PScan(out) == q && ConstantsClean(q, used, c1)
    ensures ConstantsIndex(out) == Some(c1) &&
            forall k :: c1 < k < NextHeader(out, c1 + 1) ==> !UnusedPersist(out[k], used)
  {
    ConstantsAt(out, c1);
    NextHeaderAt(out, c1 + 1, NextHead(q, c1 + 1));
  }

  lemma PruneSpecSubseq(lines: seq<string>)
    ensures IsSubseq(PruneSpec(lines), lines)
  {
    var used := UsedIn(lines);
    var c := PruneConstants(lines, used);
    PruneConstantsSpec(lines, used);
    KeyPassProperties(c, used);
    SubseqTrans(PruneKeys(c, used), c, lines);
  }

  /** Without a `[Constants]` line in the input there is none in the output. */
  lemma PruneSpecNoConstants(lines: seq<string>)
    requires ConstantsIndex(lines).None?
    ensures ConstantsIndex(PruneSpec(lines)).None?
  {
    var out := PruneSpec(lines);
    PruneSpecSubseq(lines);
    var f :| Embeds(out, lines, f);
    forall k | 0 <= k < |out| ensures !IsConstantsHeader(out[k]) {
      assert out[k] == lines[f[k]];
    }
  }

  /** The header search over the raw lines stops at or before any header it passes. */
  lemma NextHeaderBefore(lines: seq<string>, from: nat, m: nat)
    requires from <= m < |lines| && IsHeader(lines[m])
    ensures NextHeader(lines, from) <= m
  {
  }

  /** A run of lines outside the `[Constants]` body stands in the pass's
      output in place (above the body) or shifted up (below it). */
  lemma ShiftKeeps<T>(lines: seq<T>, r: seq<T>, c: nat, kept: seq<T>, end: nat, i: nat, e: nat) returns (p: nat)
    requires c < end <= |lines| && r == lines[..c] + kept + lines[end..] && |kept| > 0 && kept[0] == lines[c]
    requires i <= e <= |lines| && (e <= c || end <= i)
    ensures p + (e - i) <= |r| && r[p..p + (e - i)] == lines[i..e]
    ensures e < |lines| ==> p + (e - i) < |r| && r[p + (e - i)] == lines[e]
    ensures e == |lines| ==> p + (e - i) == |r|
  {
    if e <= c {
      p := i;
      assert r[..c] == lines[..c];
      SliceOfPrefix(r, c, i, e);
      SliceOfPrefix(lines, c, i, e);
      if e < c {
        assert r[e] == r[..c][e];
      }
    } else {
      var t := c + |kept|;
      p := i - end + t;
      assert r[t..] == lines[end..];
      SliceOfSuffix(r, t, p, p + (e - i));
      SliceOfSuffix(lines, end, i, e);
      if e < |lines| {
        assert r[p + (e - i)] == r[t..][e - end];
      }
    }
  }

  /** A slice of a prefix is a slice of the whole. */
  lemma SliceOfPrefix<T>(s: seq<T>, c: nat, i: nat, e: nat)
    requires i <= e <= c <= |s|
    ensures s[..c][i..e] == s[i..e]
  {
    forall k | 0 <= k < e - i ensures s[..c][i..e][k] == s[i..e][k] {
      assert s[..c][i..e][k] == s[..c][i + k];
    }
  }

  /** A slice of a suffix is a slice of the whole. */
  lemma SliceOfSuffix<T>(s: seq<T>, a: nat, i: nat, e: nat)
    requires a <= i <= e <= |s|
    ensures s[a..][i - a..e - a] == s[i..e]
  {
    forall k | 0 <= k < e - i ensures s[a..][i - a..e - a][k] == s[i..e][k] {
      assert s[a..][i - a..e - a][k] == s[a..][i - a + k];
    }
  }

  /** The header search agrees on the raw and on the classified lines. */
  lemma NextHeadScan(lines: seq<string>, from: nat)
    ensures NextHead(PScan(lines), from) == NextHeader(lines, from)
  {
    var pl := PScan(lines);
    if from <= |lines| {
      NextHeadAt(pl, from, NextHeader(lines, from));
    }
  }

  /** Classifying a splice is splicing the classifications. */
  lemma ScanSplice(lines: seq<string>, r: seq<string>, c: nat, kept: seq<string>, end: nat)
    requires c <= end <= |lines| && r == lines[..c] + kept + lines[end..]
    ensures PScan(r) == PScan(lines)[..c] + PScan(kept) + PScan(lines)[end..]
  {
    var pl := PScan(lines);
    var x := pl[..c] + PScan(kept) + pl[end..];
    ConcatParts(lines[..c], kept, lines[end..], r);
    forall k | 0 <= k < |r| ensures PScan(r)[k] == x[k] {
      if k < c {
        assert r[k] == r[..c][k] == lines[k];
      } else if k < c + |kept| {
        assert r[k] == kept[k - c];
      } else {
        assert r[k] == r[c + |kept|..][k - c - |kept|] == lines[k - c - |kept| + end];
      }
    }
  }

  /** The `[Constants]` pass leaves every other section whole, in place or
      shifted up by the lines it removed. */
  lemma ConstantsPassKeeps(lines: seq<string>, used: set<string>, i: nat) returns (p: nat)
    requires i < |lines| && IsHeader(lines[i]) && ConstantsIndex(lines) != Some(i)
    ensures var pl := PScan(lines);
            SectionAt(PScan(PruneConstants(lines, used)), p, pl[i..NextHead(pl, i + 1)])
  {
    var pl := PScan(lines);
    var e := NextHead(pl, i + 1);
    match ConstantsIndex(lines)
    case None =>
      p := i;
      RunSection(pl, pl, i, i, e);
    case Some(c) =>
      var end := NextHeader(lines, c + 1);
      var kept := ConstantsPassView(lines, used, c);
      ScanSplice(lines, PruneConstants(lines, used), c, kept, end);
      NextHeadScan(lines, c + 1);
      ConstantsHeaderKind(lines[c]);
      p := SectionShift(pl, PScan(PruneConstants(lines, used)), c, PScan(kept), end, i);
  }

  /** The same on the classified lines: a section other than the one at `c`
      lies wholly above or below it, so replacing that one's lines keeps it. */
  lemma SectionShift(pl: seq<PLine>, rl: seq<PLine>, c: nat, kq: seq<PLine>, end: nat, i: nat) returns (p: nat)
    requires c < end <= |pl| && end == NextHead(pl, c + 1) && pl[c].header
    requires rl == pl[..c] + kq + pl[end..] && |kq| > 0 && kq[0] == pl[c]
    requires i < |pl| && pl[i].header && i != c
    ensures SectionAt(rl, p, pl[i..NextHead(pl, i + 1)])
  {
    var e := NextHead(pl, i + 1);
    if i < c {
      NextHeadBefore(pl, i + 1, c);
    } else {
      NextHeadBefore(pl, c + 1, i);
    }
    p := ShiftKeeps(pl, rl, c, kq, end, i, e);
    RunSection(pl, rl, i, p, e);
  }

  /** A run copied from one section of `pl` stands in `rl` as that section. */
  lemma RunSection(pl: seq<PLine>, rl: seq<PLine>, i: nat, p: nat, e: nat)
    requires i <= e <= |pl| && (e < |pl| ==> pl[e].header)
    requires p + (e - i) <= |rl| && rl[p..p + (e - i)] == pl[i..e]
    requires e < |pl| ==> p + (e - i) < |rl| && rl[p + (e - i)] == pl[e]
    requires e == |pl| ==> p + (e - i) == |rl|
    ensures SectionAt(rl, p, pl[i..e])
  {
    forall k | 0 <= k < e - i ensures rl[p + k] == pl[i..e][k] {
      assert rl[p + k] == rl[p..p + (e - i)][k];
    }
  }

  /** The `[Constants]` pass as a splice of the kept body, which starts with
      the header. */
  lemma ConstantsPassView(lines: seq<string>, used: set<string>, c: nat) returns (kept: seq<string>)
    requires ConstantsIndex(lines) == Some(c)
    ensures var end := NextHeader(lines, c + 1);
            c < end && kept == Keep(lines[c..end], used) && |kept| > 0 && kept[0] == lines[c] &&
            PruneConstants(lines, used) == lines[..c] + kept + lines[end..]
  {
    var end := NextHeader(lines, c + 1);
    var body := lines[c..end];
    kept := Keep(body, used);
    assert body[0] == lines[c];
    KeepHead(body, used);
  }

  /** Every section other than `[Constants]` whose last cycle declaration
      names a variable a guard uses, or that has none, comes through the
      cleanup whole: its lines stand together, in order, in the output. In
      particular a `[Key…]` section without a `$v = 0,1` line is kept. */
  lemma PruneKeepsSection(lines: seq<string>, i: nat) returns (p: nat)
    requires i < |lines| && IsHeader(lines[i]) && ConstantsIndex(lines) != Some(i)
    requires var d := LastDecl(PScan(lines), i + 1, NextHeader(lines, i + 1));
             d.None? || d.value in UsedIn(lines)
    ensures RunAt(PruneSpec(lines), p, lines, i, NextHeader(lines, i + 1))
  {
    p := SectionRun(lines, i, UsedIn(lines));
  }

  /** The same for any set of used variables, on the two passes spelled out. */
  lemma SectionRun(lines: seq<string>, i: nat, used: set<string>) returns (p: nat)
    requires i < |lines| && IsHeader(lines[i]) && ConstantsIndex(lines) != Some(i)
    requires var d := LastDecl(PScan(lines), i + 1, NextHeader(lines, i + 1));
             d.None? || d.value in used
    ensures RunAt(Texts(PruneKeysFrom(PScan(PruneConstants(lines, used)), used, 0)), p, lines, i, NextHeader(lines, i + 1))
  {
    var rl, s, p0 := SectionSetup(lines, i, used);
    p := KeptRun(rl, used, p0, s, lines, i, NextHeader(lines, i + 1));
  }

  /** A kept section of the classified lines, as text. */
  lemma KeptRun(rl: seq<PLine>, used: set<string>, p0: nat, s: seq<PLine>, lines: seq<string>, i: nat, e: nat)
    returns (p: nat)
    requires SectionAt(rl, p0, s) && KeptSection(s, used) && i <= e <= |lines| && Texts(s) == lines[i..e]
    ensures RunAt(Texts(PruneKeysFrom(rl, used, 0)), p, lines, i, e)
  {
    p := KeysKeepRun(rl, used, p0, s);
    RunTexts(Texts(PruneKeysFrom(rl, used, 0)), Texts(s), lines, i, e, p);
  }

  /** `lines[i..e]` stands at `p` in `out`. */
  predicate RunAt(out: seq<string>, p: nat, lines: seq<string>, i: nat, e: nat) {
    i <= e <= |lines| && p + (e - i) <= |out| && out[p..p + (e - i)] == lines[i..e]
  }

  /** The section at `i`, classified, and where the `[Constants]` pass puts it. */
  lemma SectionSetup(lines: seq<string>, i: nat, used: set<string>) returns (rl: seq<PLine>, s: seq<PLine>, p0: nat)
    requires i < |lines| && IsHeader(lines[i]) && ConstantsIndex(lines) != Some(i)
    requires var d := LastDecl(PScan(lines), i + 1, NextHeader(lines, i + 1));
             d.None? || d.value in used
    ensures rl == PScan(PruneConstants(lines, used))
    ensures SectionAt(rl, p0, s) && KeptSection(s, used) && Texts(s) == lines[i..NextHeader(lines, i + 1)]
  {
    var pl := PScan(lines);
    ScanSection(lines, i);
    SliceKept(pl, i, used);
    p0 := ConstantsPassKeeps(lines, used, i);
    rl := PScan(PruneConstants(lines, used));
    s := pl[i..NextHead(pl, i + 1)];
  }

  /** The classified section at header `i` ends where the text one does and
      carries the same lines. */
  lemma ScanSection(lines: seq<string>, i: nat)
    requires i < |lines| && IsHeader(lines[i])
    ensures var pl := PScan(lines);
            pl[i].header && NextHead(pl, i + 1) == NextHeader(lines, i + 1) &&
            Texts(pl[i..NextHead(pl, i + 1)]) == lines[i..NextHeader(lines, i + 1)]
  {
    NextHeadScan(lines, i + 1);
    TextsSlice(lines, i, NextHeader(lines, i + 1));
  }

  lemma RunTexts(out: seq<string>, t: seq<string>, lines: seq<string>, i: nat, e: nat, p: nat)
    requires p + |t| <= |out| && out[p..p + |t|] == t && i <= e <= |lines| && t == lines[i..e]
    ensures RunAt(out, p, lines, i, e)
  {
  }

  /** A section whose last declaration is used, cut out of the classified lines. */
  lemma SliceKept(pl: seq<PLine>, i: nat, used: set<string>)
    requires i < |pl| && pl[i].header
    requires var d := LastDecl(pl, i + 1, NextHead(pl, i + 1)); d.None? || d.value in used
    ensures KeptSection(pl[i..NextHead(pl, i + 1)], used)
  {
    var s := pl[i..NextHead(pl, i + 1)];
    LastDeclAt(pl, i, s, 1, |s|);
  }

  /** The texts of a kept section stand together in the key pass's output. */
  lemma KeysKeepRun(rl: seq<PLine>, used: set<string>, p0: nat, s: seq<PLine>) returns (p: nat)
    requires SectionAt(rl, p0, s) && KeptSection(s, used)
    ensures var out := Texts(PruneKeysFrom(rl, used, 0));
            p + |s| <= |out| && out[p..p + |s|] == Texts(s)
  {
    p := PruneKeysKeeps(rl, used, 0, p0, s);
    var out := Texts(PruneKeysFrom(rl, used, 0));
    forall k | 0 <= k < |s| ensures out[p..p + |s|][k] == Texts(s)[k] {
      assert out[p + k] == s[k].text;
    }
  }

  lemma TextsSlice(lines: seq<string>, i: nat, e: nat)
    requires i <= e <= |lines|
    ensures Texts(PScan(lines)[i..e]) == lines[i..e]
  {
  }
}
