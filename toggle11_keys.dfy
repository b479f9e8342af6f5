/** Toggle maker v1.1.0: `insert_keys`, which adds a `[Key<v>]` cycle section
    for every spec variable that has none yet, after the last key section that
    follows `[Constants]`. */
module Toggle11Keys {
  import opened PyText
  import opened IniPatterns
  import opened IniSections
  import opened Declarations

  /** The variables a line binds to a key for `insert_keys`: the name of a
      `[Key<v>]` header the stripped line starts with, and the variable of a
      `$v = 0,1` cycle declaration it contains. */
  function KeyNames(line: string): set<string> {
    var t := Strip(line);
    (if KeyHeader(t).Some? then {KeyHeader(t).value} else {}) +
    (if KeyDeclVar(t).Some? then {KeyDeclVar(t).value} else {})
  }

  /** The variables `insert_keys` treats as already bound to a key. */
  function KnownKeyVars(lines: seq<string>): set<string> {
    set i, v | 0 <= i < |lines| && v in KeyNames(lines[i]) :: v
  }

  /** The scan for the end of the last key section from line `i` on: a key
      header jumps to the next header and remembers it; any other line moves
      on by one. */
  function LastKeyEnd(lines: seq<string>, i: nat, last: Option<nat>): (r: Option<nat>)
    requires last.Some? ==> last.value <= |lines|
    ensures r.Some? ==> r.value <= |lines|
    decreases |lines| - i
  {
    if i >= |lines| then last
    else if IsKeyHeader(lines[i]) then
      var j := NextHeader(lines, i + 1);
      LastKeyEnd(lines, j, Some(j))
    else LastKeyEnd(lines, i + 1, last)
  }

  /** The first header after `[Constants]` (or after line 0 when there is no
      `[Constants]`). */
  function FirstAfterConstants(lines: seq<string>): nat {
    NextHeader(lines, ConstantsAt(lines) + 1)
  }

  /** Where the new key sections go. */
  function KeyInsertPos(lines: seq<string>): (pos: nat)
    ensures pos <= |lines|
  {
    match LastKeyEnd(lines, FirstAfterConstants(lines), None)
    case Some(p) => p
    case None => FirstAfterConstants(lines)
  }

  /** `insert_keys`, given the `(var, key)` pairs of the specs in spec order. */
  function InsertKeys(lines: seq<string>, pairs: seq<(string, string)>): seq<string> {
    var block := KeyLines(DictOf(pairs), KnownKeyVars(lines));
    if block == [] then lines else Splice(lines, KeyInsertPos(lines), block)
  }

  /** Without a key header from `i` on, the scan keeps `last`. */
  lemma {:induction false} LastKeyEndNone(lines: seq<string>, i: nat, last: Option<nat>)
    requires last.Some? ==> last.value <= |lines|
    requires forall h :: i <= h < |lines| ==> !IsKeyHeader(lines[h])
    ensures LastKeyEnd(lines, i, last) == last
    decreases |lines| - i
  {
    if i < |lines| {
      LastKeyEndNone(lines, i + 1, last);
    }
  }

  /** The scan visits every header from `i` on, so it ends after the section of
      the last key header `h`. */
  lemma {:induction false} LastKeyEndAt(lines: seq<string>, i: nat, last: Option<nat>, h: nat)
    requires last.Some? ==> last.value <= |lines|
    requires i <= h < |lines| && IsKeyHeader(lines[h])
    requires forall h' :: h < h' < |lines| ==> !IsKeyHeader(lines[h'])
    ensures LastKeyEnd(lines, i, last) == Some(NextHeader(lines, h + 1))
    decreases |lines| - i, 1
  {
    if IsKeyHeader(lines[i]) {
      LastKeyEndAtKey(lines, i, last, h);
    } else {
      LastKeyEndAt(lines, i + 1, last, h);
    }
  }

  /** The step of `LastKeyEndAt` at a key header. */
  lemma {:induction false} LastKeyEndAtKey(lines: seq<string>, i: nat, last: Option<nat>, h: nat)
    requires last.Some? ==> last.value <= |lines|
    requires i <= h < |lines| && IsKeyHeader(lines[i]) && IsKeyHeader(lines[h])
    requires forall h' :: h < h' < |lines| ==> !IsKeyHeader(lines[h'])
    ensures LastKeyEnd(lines, i, last) == Some(NextHeader(lines, h + 1))
    decreases |lines| - i, 0
  {
    var j := NextHeader(lines, i + 1);
    if h == i {
      LastKeyEndNone(lines, j, Some(j));
    } else {
      HeaderNotSkipped(lines, i + 1, h);
      LastKeyEndAt(lines, j, Some(j), h);
    }
  }

  /** The search for the next header does not pass a key header. */
  lemma HeaderNotSkipped(lines: seq<string>, from: nat, h: nat)
    requires from <= h < |lines| && IsKeyHeader(lines[h])
    ensures NextHeader(lines, from) <= h
  {
  }

  /** The sections go at the end of the last key section that starts at or
      after the first header following `[Constants]`, or at that header when
      there is no such key section. */
  lemma KeyInsertPosSpec(lines: seq<string>)
    ensures var fa := FirstAfterConstants(lines);
            (forall h :: fa <= h < |lines| ==> !IsKeyHeader(lines[h])) ==> KeyInsertPos(lines) == fa
    ensures var fa := FirstAfterConstants(lines);
            forall h :: fa <= h < |lines| && IsKeyHeader(lines[h]) &&
                        (forall h' :: h < h' < |lines| ==> !IsKeyHeader(lines[h'])) ==>
              KeyInsertPos(lines) == NextHeader(lines, h + 1)
  {
    var fa := FirstAfterConstants(lines);
    if forall h :: fa <= h < |lines| ==> !IsKeyHeader(lines[h]) {
      LastKeyEndNone(lines, fa, None);
    }
    forall h | fa <= h < |lines| && IsKeyHeader(lines[h]) &&
               (forall h' :: h < h' < |lines| ==> !IsKeyHeader(lines[h']))
      ensures KeyInsertPos(lines) == NextHeader(lines, h + 1)
    {
      LastKeyEndAt(lines, fa, None, h);
    }
  }

  /** Nothing is added, and the lines come back unchanged, when every spec
      variable already has a key. */
  lemma InsertKeysUnchanged(lines: seq<string>, pairs: seq<(string, string)>)
    requires forall i :: 0 <= i < |pairs| ==> pairs[i].0 in KnownKeyVars(lines)
    ensures InsertKeys(lines, pairs) == lines
  {
    KeyLinesAllSkipped(pairs, KnownKeyVars(lines));
  }

  /** Otherwise one six-line section is added per spec variable without a key,
      in order of first appearance, each with the key of the variable's last
      spec, at the insertion position. */
  lemma InsertKeysAdds(lines: seq<string>, pairs: seq<(string, string)>)
    ensures KeysAddedAt(InsertKeys(lines, pairs), lines, KeyInsertPos(lines),
                        Unseen(KeysOf(pairs), KnownKeyVars(lines)), pairs)
  {
    var known := KnownKeyVars(lines);
    KeyBlock(pairs, known);
    SpliceBlock(lines, KeyInsertPos(lines), KeyLines(DictOf(pairs), known), pairs, Unseen(KeysOf(pairs), known));
  }

  /** `r` is `lines` with one section per name of `u` at `pos`, each with the
      key of that name's last pair. */
  predicate KeysAddedAt(r: seq<string>, lines: seq<string>, pos: nat, u: seq<string>, pairs: seq<(string, string)>) {
    pos <= |lines| && |r| == |lines| + 6 * |u| &&
    r[..pos] == lines[..pos] && r[pos + 6 * |u|..] == lines[pos..] &&
    forall t :: 0 <= t < |u| ==>
      LastValue(pairs, u[t], None).Some? &&
      r[pos + 6 * t..pos + 6 * t + 6] == KeySection(u[t], LastValue(pairs, u[t], None).value)
  }

  /** Splicing a block of sections keeps both sides of the insertion point. */
  lemma SpliceBlock(lines: seq<string>, pos: nat, block: seq<string>, pairs: seq<(string, string)>, u: seq<string>)
    requires pos <= |lines|
    requires |block| == 6 * |u|
    requires forall t :: 0 <= t < |u| ==>
               LastValue(pairs, u[t], None).Some? &&
               block[6 * t..6 * t + 6] == KeySection(u[t], LastValue(pairs, u[t], None).value)
    ensures var r := if block == [] then lines else Splice(lines, pos, block);
            |r| == |lines| + 6 * |u| &&
            r[..pos] == lines[..pos] && r[pos + 6 * |u|..] == lines[pos..] &&
            forall t :: 0 <= t < |u| ==>
              r[pos + 6 * t..pos + 6 * t + 6] == KeySection(u[t], LastValue(pairs, u[t], None).value)
  {
    if block == [] {
      assert lines[pos..] == lines[pos + 6 * |u|..];
    } else {
      var r := Splice(lines, pos, block);
      assert r[..pos] == lines[..pos];
      assert r[pos + |block|..] == lines[pos..];
      forall t | 0 <= t < |u|
        ensures r[pos + 6 * t..pos + 6 * t + 6] == block[6 * t..6 * t + 6]
      {
        assert r[pos..pos + |block|] == block;
      }
    }
  }

  /** A line of `lines` keeps naming its key after the splice. */
  lemma SpliceKeepsKnown(lines: seq<string>, pos: nat, block: seq<string>)
    requires pos <= |lines|
    ensures KnownKeyVars(lines) <= KnownKeyVars(Splice(lines, pos, block))
  {
    var r := Splice(lines, pos, block);
    forall v | v in KnownKeyVars(lines) ensures v in KnownKeyVars(r) {
      var i :| 0 <= i < |lines| && v in KeyNames(lines[i]);
      if i < pos {
        assert r[i] == lines[i];
      } else {
        assert r[i + |block|] == lines[i];
      }
    }
  }

  /** After the insertion every identifier variable of the specs has a key. */
  lemma InsertKeysKnown(lines: seq<string>, pairs: seq<(string, string)>, v: string)
    requires IsIdent(v) && v in KeysOf(pairs)
    ensures v in KnownKeyVars(InsertKeys(lines, pairs))
  {
    if v in KnownKeyVars(lines) {
      KnownStaysKnown(lines, pairs, v);
    } else {
      var u := Unseen(KeysOf(pairs), KnownKeyVars(lines));
      assert v in u;
      var t :| 0 <= t < |u| && u[t] == v;
      NewKeyKnown(lines, pairs, v, u, t);
    }
  }

  /** A variable that had a key keeps it. */
  lemma KnownStaysKnown(lines: seq<string>, pairs: seq<(string, string)>, v: string)
    requires v in KnownKeyVars(lines)
    ensures v in KnownKeyVars(InsertKeys(lines, pairs))
  {
    var block := KeyLines(DictOf(pairs), KnownKeyVars(lines));
    if block != [] {
      SpliceKeepsKnown(lines, KeyInsertPos(lines), block);
    }
  }

  /** A variable that had none gets the section generated for it. */
  lemma NewKeyKnown(lines: seq<string>, pairs: seq<(string, string)>, v: string, u: seq<string>, t: nat)
    requires IsIdent(v) && u == Unseen(KeysOf(pairs), KnownKeyVars(lines)) && t < |u| && u[t] == v
    ensures v in KnownKeyVars(InsertKeys(lines, pairs))
  {
    InsertKeysAdds(lines, pairs);
    AddedKnown(InsertKeys(lines, pairs), lines, KeyInsertPos(lines), u, pairs, t, v);
  }

  lemma AddedKnown(r: seq<string>, lines: seq<string>, pos: nat, u: seq<string>, pairs: seq<(string, string)>,
                   t: nat, v: string)
    requires KeysAddedAt(r, lines, pos, u, pairs) && t < |u| && u[t] == v && IsIdent(v)
    ensures v in KnownKeyVars(r)
  {
    KeyHeaderAt(r, pos + 6 * t, v, LastValue(pairs, v, None).value);
  }

  /** A generated section at `at` names its variable on its header line. */
  lemma KeyHeaderAt(r: seq<string>, at: nat, v: string, key: string)
    requires IsIdent(v) && at + 6 <= |r| && r[at..at + 6] == KeySection(v, key)
    ensures v in KnownKeyVars(r)
  {
    assert r[at + 1] == r[at..at + 6][1];
    KeyHeaderLine(v);
    assert v in KeyNames(r[at + 1]);
  }

  /** Running `insert_keys` twice with the same identifier variables adds
      nothing the second time. */
  lemma InsertKeysIdempotent(lines: seq<string>, pairs: seq<(string, string)>)
    requires forall i :: 0 <= i < |pairs| ==> IsIdent(pairs[i].0)
    ensures InsertKeys(InsertKeys(lines, pairs), pairs) == InsertKeys(lines, pairs)
  {
    var r := InsertKeys(lines, pairs);
    forall i | 0 <= i < |pairs| ensures pairs[i].0 in KnownKeyVars(r) {
      assert KeysOf(pairs)[i] == pairs[i].0;
      InsertKeysKnown(lines, pairs, pairs[i].0);
    }
    InsertKeysUnchanged(r, pairs);
  }
}
