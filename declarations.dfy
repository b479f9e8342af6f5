/** The declarations both toggle makers add around the wrapped draw lines:
    `global persist $v = 0` lines at the end of the `[Constants]` body, and
    six-line `[Key<v>]` cycle sections. Also the two pieces of Python built-in
    behaviour they rely on: keeping the first appearance of each name, and a
    dict filled by assignment (first insertion fixes the position, the last
    assignment fixes the value). */
module Declarations {
  import opened PyText
  import opened IniPatterns
  import opened IniSections

  // ---------------------------------------------------------------------
  // First appearances.

  /** The names of `vars` that are not in `skip`, each once, at its first
      appearance: the `seen`-set accumulator loops of the source. */
  function Unseen(vars: seq<string>, skip: set<string>): (r: seq<string>)
    ensures forall x :: x in r <==> x in vars && x !in skip
    ensures forall i, j :: 0 <= i < j < |r| ==> r[i] != r[j]
    decreases |vars|
  {
    if vars == [] then []
    else if vars[0] in skip then Unseen(vars[1..], skip)
    else [vars[0]] + Unseen(vars[1..], skip + {vars[0]})
  }

  /** The first index of `x` in `s`. */
  function IndexOf(s: seq<string>, x: string): (i: nat)
    requires x in s
    ensures i < |s| && s[i] == x && forall j :: 0 <= j < i ==> s[j] != x
    decreases |s|
  {
    if s[0] == x then 0 else 1 + IndexOf(s[1..], x)
  }

  /** Every name of `r` occurs in `vars`, and `r` lists them in the order of
      their first occurrences there. */
  predicate InFirstOrder(r: seq<string>, vars: seq<string>) {
    (forall x :: x in r ==> x in vars) &&
    forall i, j :: 0 <= i < j < |r| ==> r[i] in vars && r[j] in vars && IndexOf(vars, r[i]) < IndexOf(vars, r[j])
  }

  /** `Unseen` keeps the order of first appearance. */
  lemma {:induction false} UnseenOrder(vars: seq<string>, skip: set<string>)
    ensures InFirstOrder(Unseen(vars, skip), vars)
    decreases |vars|
  {
    if vars != [] {
      if vars[0] in skip {
        UnseenOrder(vars[1..], skip);
        OrderBehind(vars, Unseen(vars[1..], skip));
      } else {
        UnseenOrder(vars[1..], skip + {vars[0]});
        OrderBehind(vars, Unseen(vars[1..], skip + {vars[0]}));
        OrderCons(vars, Unseen(vars[1..], skip + {vars[0]}));
      }
    }
  }

  /** A list in first-occurrence order for the tail, without the head, is in
      first-occurrence order for the whole. */
  lemma OrderBehind(vars: seq<string>, t: seq<string>)
    requires vars != [] && vars[0] !in t && InFirstOrder(t, vars[1..])
    ensures InFirstOrder(t, vars)
    ensures forall x :: x in t ==> IndexOf(vars, x) == 1 + IndexOf(vars[1..], x)
  {
    forall x | x in t ensures x in vars && IndexOf(vars, x) == 1 + IndexOf(vars[1..], x) {
      assert x != vars[0];
    }
  }

  /** The head goes first. */
  lemma OrderCons(vars: seq<string>, t: seq<string>)
    requires vars != [] && vars[0] !in t && InFirstOrder(t, vars)
    requires forall x :: x in t ==> IndexOf(vars, x) == 1 + IndexOf(vars[1..], x)
    ensures InFirstOrder([vars[0]] + t, vars)
  {
    var r := [vars[0]] + t;
    forall i, j | 0 <= i < j < |r|
      ensures r[i] in vars && r[j] in vars && IndexOf(vars, r[i]) < IndexOf(vars, r[j])
    {
      assert r[j] == t[j - 1] && r[j] in t;
      if i > 0 {
        assert r[i] == t[i - 1];
      }
    }
  }

  // ---------------------------------------------------------------------
  // A dict as a list of (key, value) entries in insertion order.

  /** `d[k] = v`: overwrite in place when `k` is present, append otherwise. */
  function Assign(d: seq<(string, string)>, k: string, v: string): (r: seq<(string, string)>)
    decreases |d|
  {
    if d == [] then [(k, v)]
    else if d[0].0 == k then [(k, v)] + d[1..]
    else [d[0]] + Assign(d[1..], k, v)
  }

  function KeysOf(d: seq<(string, string)>): (r: seq<string>)
    ensures |r| == |d| && forall i :: 0 <= i < |d| ==> r[i] == d[i].0
    decreases |d|
  {
    if d == [] then [] else [d[0].0] + KeysOf(d[1..])
  }

  /** `d.get(k)`. */
  function Lookup(d: seq<(string, string)>, k: string): Option<string>
    decreases |d|
  {
    if d == [] then None
    else if d[0].0 == k then Some(d[0].1)
    else Lookup(d[1..], k)
  }

  /** The dict built by assigning every pair in turn, starting from `acc`. */
  function DictFold(pairs: seq<(string, string)>, acc: seq<(string, string)>): seq<(string, string)>
    decreases |pairs|
  {
    if pairs == [] then acc
    else DictFold(pairs[1..], Assign(acc, pairs[0].0, pairs[0].1))
  }

  function DictOf(pairs: seq<(string, string)>): seq<(string, string)> {
    DictFold(pairs, [])
  }

  /** The value the last pair with key `k` gives, or `dflt` when none has `k`. */
  function LastValue(pairs: seq<(string, string)>, k: string, dflt: Option<string>): Option<string>
    decreases |pairs|
  {
    if pairs == [] then dflt
    else LastValue(pairs[1..], k, if pairs[0].0 == k then Some(pairs[0].1) else dflt)
  }

  function SetOf(s: seq<string>): (r: set<string>)
    ensures forall x :: x in r <==> x in s
  {
    set x | x in s
  }

  lemma SetOfAppend(s: seq<string>, k: string)
    ensures SetOf(s + [k]) == SetOf(s) + {k}
  {
  }

  lemma {:induction false} AssignKeys(d: seq<(string, string)>, k: string, v: string)
    ensures KeysOf(Assign(d, k, v)) == if k in KeysOf(d) then KeysOf(d) else KeysOf(d) + [k]
    decreases |d|
  {
    if d != [] {
      if d[0].0 != k {
        AssignKeys(d[1..], k, v);
        assert Assign(d, k, v)[1..] == Assign(d[1..], k, v);
        assert k in KeysOf(d) <==> k in KeysOf(d[1..]);
      } else {
        assert Assign(d, k, v)[1..] == d[1..];
      }
    }
  }

  lemma {:induction false} AssignLookup(d: seq<(string, string)>, k: string, v: string, x: string)
    ensures Lookup(Assign(d, k, v), x) == if x == k then Some(v) else Lookup(d, x)
    decreases |d|
  {
    if d != [] && d[0].0 != k {
      AssignLookup(d[1..], k, v, x);
    }
  }

  lemma UnseenCons(x: string, rest: seq<string>, skip: set<string>)
    ensures Unseen([x] + rest, skip) ==
            if x in skip then Unseen(rest, skip) else [x] + Unseen(rest, skip + {x})
  {
    assert ([x] + rest)[0] == x && ([x] + rest)[1..] == rest;
  }

  /** The keys of a dict filled by assignment: those already present, then the
      new keys in order of first appearance. */
  lemma {:induction false} DictFoldKeys(pairs: seq<(string, string)>, acc: seq<(string, string)>)
    ensures KeysOf(DictFold(pairs, acc)) == KeysOf(acc) + Unseen(KeysOf(pairs), SetOf(KeysOf(acc)))
    decreases |pairs|
  {
    if pairs == [] {
      assert KeysOf(acc) + [] == KeysOf(acc);
    } else {
      DictFoldKeys(pairs[1..], Assign(acc, pairs[0].0, pairs[0].1));
      DictFoldKeysStep(pairs, acc);
    }
  }

  lemma DictFoldKeysStep(pairs: seq<(string, string)>, acc: seq<(string, string)>)
    requires pairs != []
    requires var acc' := Assign(acc, pairs[0].0, pairs[0].1);
             KeysOf(DictFold(pairs[1..], acc')) ==
             KeysOf(acc') + Unseen(KeysOf(pairs[1..]), SetOf(KeysOf(acc')))
    ensures KeysOf(DictFold(pairs, acc)) == KeysOf(acc) + Unseen(KeysOf(pairs), SetOf(KeysOf(acc)))
  {
    var p := pairs[0];
    var ks := KeysOf(acc);
    var rest := KeysOf(pairs[1..]);
    var acc' := Assign(acc, p.0, p.1);
    assert DictFold(pairs, acc) == DictFold(pairs[1..], acc');
    assert KeysOf(pairs) == [p.0] + rest;
    AssignKeys(acc, p.0, p.1);
    UnseenCons(p.0, rest, SetOf(ks));
    if p.0 !in ks {
      SetOfAppend(ks, p.0);
      ConcatAssoc(ks, p.0, Unseen(rest, SetOf(ks) + {p.0}));
    }
  }

  lemma ConcatAssoc(ks: seq<string>, k: string, u: seq<string>)
    ensures (ks + [k]) + u == ks + ([k] + u)
  {
  }

  /** Each key of such a dict holds the value of its last assignment. */
  lemma {:induction false} DictFoldValues(pairs: seq<(string, string)>, acc: seq<(string, string)>, k: string)
    ensures Lookup(DictFold(pairs, acc), k) == LastValue(pairs, k, Lookup(acc, k))
    decreases |pairs|
  {
    if pairs != [] {
      var p := pairs[0];
      AssignLookup(acc, p.0, p.1, k);
      DictFoldValues(pairs[1..], Assign(acc, p.0, p.1), k);
    }
  }

  /** The keys of a dict are distinct, and the entry with key `k` is what a
      lookup of `k` returns. */
  lemma {:induction false} DictEntryLookup(d: seq<(string, string)>, i: nat)
    requires i < |d|
    requires forall a, b :: 0 <= a < b < |d| ==> d[a].0 != d[b].0
    ensures Lookup(d, d[i].0) == Some(d[i].1)
    decreases i
  {
    if i > 0 {
      DictEntryLookup(d[1..], i - 1);
    }
  }

  /** `var_to_key` of `insert_keys`: first appearance fixes a variable's
      position, its last spec fixes its key. */
  lemma DictOfSpec(pairs: seq<(string, string)>)
    ensures KeysOf(DictOf(pairs)) == Unseen(KeysOf(pairs), {})
    ensures forall i :: 0 <= i < |DictOf(pairs)| ==>
              Some(DictOf(pairs)[i].1) == LastValue(pairs, DictOf(pairs)[i].0, None)
  {
    var d := DictOf(pairs);
    DictFoldKeys(pairs, []);
    assert KeysOf([]) == [];
    assert SetOf([]) == {};
    assert [] + Unseen(KeysOf(pairs), {}) == Unseen(KeysOf(pairs), {});
    forall i | 0 <= i < |d|
      ensures Some(d[i].1) == LastValue(pairs, d[i].0, None)
    {
      forall a, b | 0 <= a < b < |d| ensures d[a].0 != d[b].0 {
        assert KeysOf(d)[a] == d[a].0 && KeysOf(d)[b] == d[b].0;
      }
      DictEntryLookup(d, i);
      DictFoldValues(pairs, [], d[i].0);
    }
  }

  // ---------------------------------------------------------------------
  // `[Constants]` and its persisted variables.

  /** The line `insert_constants` writes for a variable. */
  function PersistLine(v: string): string {
    "global persist $" + v + " = 0\n"
  }

  function PersistLines(vs: seq<string>): (r: seq<string>)
    ensures |r| == |vs| && forall i :: 0 <= i < |vs| ==> r[i] == PersistLine(vs[i])
  {
    seq(|vs|, i requires 0 <= i < |vs| => PersistLine(vs[i]))
  }

  /** A generated persist line names its variable under `persist\s+\$(\w+)`. */
  lemma PersistLineVar(v: string)
    requires IsIdent(v)
    ensures PersistVar(PersistLine(v)) == Some(v)
  {
    var s := PersistLine(v);
    assert s[..7] == "global ";
    assert s[7..14] == "persist";
    assert s[15] == '$';
    assert s[16..16 + |v|] == v;
    assert s[16 + |v|] == ' ';
    forall p | 0 <= p < 7 ensures PersistAt(s, p).None? {
      NotPersistInPrefix(s, p);
    }
    assert SpaceRunEnd(s, 14) == 15;
    assert WordRunEnd(s, 16) == 16 + |v| by {
      WordRunOver(s, 16, |v|);
    }
    assert PersistAt(s, 7) == Some(v);
    assert PersistFrom(s, 7) == Some(v);
    PersistFromSkips(s, 0, 7);
  }

  /** No `persist` starts inside a leading `global `. */
  lemma NotPersistInPrefix(s: string, p: nat)
    requires p < 7 && 16 <= |s| && s[..7] == "global "
    ensures PersistAt(s, p).None?
  {
    assert s[p..p + 7][0] == s[..7][p];
    assert "global "[p] != 'p';
  }

  lemma {:induction false} WordRunOver(s: string, p: nat, n: nat)
    requires p + n <= |s|
    requires forall k :: p <= k < p + n ==> IsWordChar(s[k])
    requires p + n == |s| || !IsWordChar(s[p + n])
    ensures WordRunEnd(s, p) == p + n
    decreases n
  {
    if n > 0 {
      WordRunOver(s, p + 1, n - 1);
    }
  }

  lemma {:induction false} PersistFromSkips(s: string, p: nat, q: nat)
    requires p <= q <= |s|
    requires forall k :: p <= k < q ==> PersistAt(s, k).None?
    ensures PersistFrom(s, p) == PersistFrom(s, q)
    decreases q - p
  {
    if p < q {
      PersistFromSkips(s, p + 1, q);
    }
  }

  /** The variables declared by `persist $v` lines among `lines[a..b]`. */
  function Declared(lines: seq<string>, a: nat, b: nat): (r: set<string>)
    requires a <= b <= |lines|
    ensures forall v :: v in r <==> exists k :: a <= k < b && PersistVar(lines[k]) == Some(v)
    decreases b - a
  {
    if a == b then {}
    else
      var here := match PersistVar(lines[a]) case Some(v) => {v} case None => {};
      here + Declared(lines, a + 1, b)
  }

  /** The file with a `[Constants]` header: as it is, or with one prepended. */
  function WithConstants(lines: seq<string>): seq<string> {
    if ConstantsIndex(lines).None? then ["[Constants]\n", "\n"] + lines else lines
  }

  /** Where `insert_constants` works: the header index of `WithConstants`. */
  function ConstantsAt(lines: seq<string>): (c: nat)
    ensures c < |WithConstants(lines)|
  {
    match ConstantsIndex(lines) case Some(c) => c case None => 0
  }

  /** The variables `insert_constants` adds: each spec variable, once, that no
      `persist` line of the Constants body declares. */
  function NewPersists(lines: seq<string>, vars: seq<string>): seq<string> {
    var base := WithConstants(lines);
    var c := ConstantsAt(lines);
    Unseen(vars, Declared(base, c, NextHeader(base, c + 1)))
  }

  /** `insert_constants`: add the missing persist lines at the end of the
      Constants body, creating `[Constants]` at the top when it is missing.
      (When nothing is missing the source returns the list as it is, which is
      the same value as splicing in no lines.) */
  function InsertConstants(lines: seq<string>, vars: seq<string>): seq<string> {
    var base := WithConstants(lines);
    Splice(base, NextHeader(base, ConstantsAt(lines) + 1), PersistLines(NewPersists(lines, vars)))
  }

  // ---------------------------------------------------------------------
  // What insert_constants guarantees.

  lemma ConstantsHeaderLine()
    ensures IsConstantsHeader("[Constants]\n") && IsHeader("[Constants]\n")
  {
    var t := "[Constants]";
    assert "[Constants]\n" == [] + t + "\n";
    StripPadded([], t, "\n");
    StripTrimmed(t);
    assert Lower(t) == "[constants]";
  }

  lemma PersistLineNotHeader(v: string)
    ensures !IsHeader(PersistLine(v))
  {
    var t := "global persist $" + v + " = 0";
    assert PersistLine(v) == [] + t + "\n";
    StripPadded([], t, "\n");
    StripTrimmed(t);
    assert t[0] == 'g';
  }

  /** The first `[constants]` line depends only on the lines up to it. */
  lemma {:induction false} ConstantsFromPrefix(s: seq<string>, t: seq<string>, from: nat, c: nat)
    requires ConstantsFrom(s, from) == Some(c)
    requires c < |t| && t[..c + 1] == s[..c + 1]
    ensures ConstantsFrom(t, from) == Some(c)
    decreases c - from
  {
    assert t[from] == t[..c + 1][from] && s[from] == s[..c + 1][from];
    if from < c {
      ConstantsFromPrefix(s, t, from + 1, c);
    }
  }

  /** `WithConstants` has its `[Constants]` line where `ConstantsAt` says. */
  lemma WithConstantsIndex(lines: seq<string>)
    ensures ConstantsIndex(WithConstants(lines)) == Some(ConstantsAt(lines))
  {
    if ConstantsIndex(lines).None? {
      ConstantsHeaderLine();
    }
  }

  /** Splicing after the `[constants]` line leaves it the first one. */
  lemma SpliceConstantsIndex(base: seq<string>, e: nat, block: seq<string>, c: nat)
    requires e <= |base| && ConstantsIndex(base) == Some(c) && c < e
    ensures ConstantsIndex(Splice(base, e, block)) == Some(c)
  {
    var r := Splice(base, e, block);
    assert r[..c + 1] == base[..c + 1];
    ConstantsFromPrefix(base, r, 0, c);
  }

  /** Splicing header-free lines at the end of a header-free stretch extends it. */
  lemma SpliceNextHeader(base: seq<string>, from: nat, e: nat, block: seq<string>)
    requires from <= e <= |base| && NextHeader(base, from) == e
    requires forall k :: 0 <= k < |block| ==> !IsHeader(block[k])
    ensures NextHeader(Splice(base, e, block), from) == e + |block|
  {
    var r := Splice(base, e, block);
    forall k | from <= k < e + |block| ensures !IsHeader(r[k]) {
      if k >= e {
        assert r[e + (k - e)] == block[k - e];
      }
    }
    if e < |base| {
      assert r[e + |block|] == base[e];
    }
    NextHeaderAt(r, from, e + |block|);
  }

  /** The declarations of a spliced stretch are those before the splice point
      and those of the spliced lines. */
  lemma SpliceDeclared(base: seq<string>, c: nat, e: nat, block: seq<string>)
    requires c <= e <= |base|
    ensures Declared(Splice(base, e, block), c, e + |block|) ==
            Declared(base, c, e) + Declared(block, 0, |block|)
  {
    var r := Splice(base, e, block);
    forall v ensures v in Declared(r, c, e + |block|) <==>
                     v in Declared(base, c, e) || v in Declared(block, 0, |block|)
    {
      if v in Declared(r, c, e + |block|) {
        var k :| c <= k < e + |block| && PersistVar(r[k]) == Some(v);
        if k >= e {
          assert r[e + (k - e)] == block[k - e];
        }
      }
      if v in Declared(base, c, e) {
        var k :| c <= k < e && PersistVar(base[k]) == Some(v);
        assert r[k] == base[k];
      }
      if v in Declared(block, 0, |block|) {
        var k :| 0 <= k < |block| && PersistVar(block[k]) == Some(v);
        assert r[e + k] == block[k];
      }
    }
  }

  /** Generated persist lines declare exactly their variables. */
  lemma PersistLinesDeclared(vs: seq<string>)
    requires forall v :: v in vs ==> IsIdent(v)
    ensures forall v :: v in Declared(PersistLines(vs), 0, |vs|) <==> v in vs
  {
    var p := PersistLines(vs);
    forall v ensures v in Declared(p, 0, |vs|) <==> v in vs {
      if v in Declared(p, 0, |vs|) {
        var k :| 0 <= k < |vs| && PersistVar(p[k]) == Some(v);
        PersistLineVar(vs[k]);
      }
      if v in vs {
        var k :| 0 <= k < |vs| && vs[k] == v;
        PersistLineVar(v);
      }
    }
  }

  lemma PersistLinesNoHeader(vs: seq<string>)
    ensures forall k :: 0 <= k < |vs| ==> !IsHeader(PersistLines(vs)[k])
  {
    forall k | 0 <= k < |vs| ensures !IsHeader(PersistLines(vs)[k]) {
      PersistLineNotHeader(vs[k]);
    }
  }

  /** The Constants body of the result ends just after the added lines. */
  lemma InsertConstantsBody(lines: seq<string>, vars: seq<string>)
    ensures var r := InsertConstants(lines, vars);
            var c := ConstantsAt(lines);
            var e := NextHeader(WithConstants(lines), c + 1);
            ConstantsIndex(r) == Some(c) &&
            NextHeader(r, c + 1) == e + |NewPersists(lines, vars)|
  {
    var base := WithConstants(lines);
    var c := ConstantsAt(lines);
    var e := NextHeader(base, c + 1);
    var block := PersistLines(NewPersists(lines, vars));
    WithConstantsIndex(lines);
    SpliceConstantsIndex(base, e, block, c);
    PersistLinesNoHeader(NewPersists(lines, vars));
    SpliceNextHeader(base, c + 1, e, block);
  }

  /** After insert_constants every spec variable that is a plain identifier is
      declared by a `persist` line of the Constants body. */
  lemma InsertConstantsDeclares(lines: seq<string>, vars: seq<string>)
    requires forall v :: v in vars ==> IsIdent(v)
    ensures var r := InsertConstants(lines, vars);
            var c := ConstantsAt(lines);
            ConstantsIndex(r) == Some(c) &&
            forall v :: v in vars ==> v in Declared(r, c, NextHeader(r, c + 1))
  {
    var base := WithConstants(lines);
    var c := ConstantsAt(lines);
    var e := NextHeader(base, c + 1);
    var added := NewPersists(lines, vars);
    InsertConstantsBody(lines, vars);
    SpliceDeclared(base, c, e, PersistLines(added));
    PersistLinesDeclared(added);
  }

  lemma {:induction false} UnseenAllSkipped(vars: seq<string>, skip: set<string>)
    requires forall v :: v in vars ==> v in skip
    ensures Unseen(vars, skip) == []
    decreases |vars|
  {
    if vars != [] {
      UnseenAllSkipped(vars[1..], skip);
    }
  }

  /** A second insert_constants with the same plain-identifier variables adds
      nothing. */
  lemma InsertConstantsIdempotent(lines: seq<string>, vars: seq<string>)
    requires forall v :: v in vars ==> IsIdent(v)
    ensures InsertConstants(InsertConstants(lines, vars), vars) == InsertConstants(lines, vars)
  {
    var r := InsertConstants(lines, vars);
    InsertConstantsDeclares(lines, vars);
    var c := ConstantsAt(lines);
    assert WithConstants(r) == r && ConstantsAt(r) == c;
    var e := NextHeader(r, c + 1);
    UnseenAllSkipped(vars, Declared(r, c, e));
    assert NewPersists(r, vars) == [];
    assert PersistLines([]) == [];
    SpliceNothing(r, e);
  }

  lemma SpliceNothing(base: seq<string>, at: nat)
    requires at <= |base|
    ensures Splice(base, at, []) == base
  {
    assert base[..at] + base[at..] == base;
  }

  // ---------------------------------------------------------------------
  // `[Key<v>]` sections.

  /** The six lines `insert_keys` writes for one variable and its key. */
  function KeySection(v: string, key: string): (r: seq<string>)
    ensures |r| == 6
  {
    ["\n", "[Key" + v + "]\n", "condition = $object_detected\n", "key = " + key + "\n",
     "type = cycle\n", "$" + v + " = 0,1\n"]
  }

  /** The key sections of the dict entries whose variable is not in `skip`, in
      dict order. */
  function KeyLines(d: seq<(string, string)>, skip: set<string>): (r: seq<string>)
    ensures |r| % 6 == 0
    ensures r == [] <==> forall i :: 0 <= i < |d| ==> d[i].0 in skip
    decreases |d|
  {
    if d == [] then []
    else (if d[0].0 in skip then [] else KeySection(d[0].0, d[0].1)) + KeyLines(d[1..], skip)
  }

  /** The header of a generated key section names its variable. */
  lemma KeyHeaderLine(v: string)
    requires IsIdent(v)
    ensures Strip("[Key" + v + "]\n") == "[Key" + v + "]"
    ensures KeyHeader(Strip("[Key" + v + "]\n")) == Some(v)
    ensures IsHeader("[Key" + v + "]\n")
  {
    var t := "[Key" + v + "]";
    assert "[Key" + v + "]\n" == [] + t + "\n";
    StripPadded([], t, "\n");
    StripTrimmed(t);
    assert t[1..4] == "Key";
    assert Lower(t[1..4]) == "key";
    WordRunOver(t, 4, |v|);
    assert t[4..4 + |v|] == v;
    assert t[..1] == "[" && t[|t| - 1..] == "]";
  }

  /** The cycle line of a generated key section names its variable, raw or
      stripped. */
  lemma KeyDeclLine(v: string)
    requires IsIdent(v)
    ensures KeyDeclVar("$" + v + " = 0,1\n") == Some(v)
    ensures KeyDeclVar("$" + v + " = 0,1") == Some(v)
  {
    var t := "$" + v + " = 0,1";
    KeyDeclShape(v, t, t);
    assert t + "\n" == "$" + v + " = 0,1\n";
    KeyDeclShape(v, t + "\n", t);
  }

  lemma StripKeyDeclLine(v: string)
    ensures Strip("$" + v + " = 0,1\n") == "$" + v + " = 0,1"
  {
    var t := "$" + v + " = 0,1";
    assert "$" + v + " = 0,1\n" == [] + t + "\n";
    StripPadded([], t, "\n");
    StripTrimmed(t);
  }

  lemma KeyDeclShape(v: string, s: string, t: string)
    requires IsIdent(v) && t == "$" + v + " = 0,1"
    requires s == t || s == t + "\n"
    ensures KeyDeclVar(s) == Some(v)
  {
    var n := |v|;
    assert s[..n + 7] == t;
    assert s[0] == '$' && s[1 + n] == ' ' && s[2 + n] == '=' && s[3 + n] == ' ';
    assert s[1..1 + n] == v;
    assert s[4 + n..7 + n] == "0,1";
    KeyDeclAtStart(v, s);
  }

  lemma KeyDeclAtStart(v: string, s: string)
    requires IsIdent(v) && |s| >= |v| + 7
    requires s[0] == '$' && s[1..1 + |v|] == v
    requires s[1 + |v|] == ' ' && s[2 + |v|] == '=' && s[3 + |v|] == ' '
    requires s[4 + |v|..7 + |v|] == "0,1"
    requires |s| == |v| + 7 || !IsWordChar(s[|v| + 7])
    ensures KeyDeclVar(s) == Some(v)
  {
    var n := |v|;
    forall k | 1 <= k < 1 + n ensures IsWordChar(s[k]) {
      assert s[k] == s[1..1 + n][k - 1];
    }
    WordRunOver(s, 1, n);
    assert SpaceRunEnd(s, 1 + n) == 2 + n;
    assert SpaceRunEnd(s, 3 + n) == 4 + n;
  }

  // ---------------------------------------------------------------------
  // The content of the generated key block.

  /** Skipping in two rounds is skipping once with both sets. */
  lemma {:induction false} UnseenTwice(x: seq<string>, a: set<string>, b: set<string>)
    ensures Unseen(Unseen(x, a), b) == Unseen(x, a + b)
    decreases |x|
  {
    if x != [] {
      var x0 := x[0];
      if x0 in a {
        UnseenTwice(x[1..], a, b);
      } else {
        UnseenTwice(x[1..], a + {x0}, b);
        UnseenCons(x0, Unseen(x[1..], a + {x0}), b);
        if x0 in b {
          assert a + {x0} + b == a + b;
        } else {
          UnseenTwice(x[1..], a + {x0}, b + {x0});
          assert a + {x0} + (b + {x0}) == a + b + {x0};
        }
      }
    }
  }

  /** Adding to `skip` a name that does not occur changes nothing. */
  lemma {:induction false} UnseenAbsent(x: seq<string>, skip: set<string>, y: string)
    requires y !in x
    ensures Unseen(x, skip + {y}) == Unseen(x, skip)
    decreases |x|
  {
    if x != [] {
      assert x[0] != y;
      if x[0] in skip {
        UnseenAbsent(x[1..], skip, y);
      } else {
        assert skip + {y} + {x[0]} == skip + {x[0]} + {y};
        UnseenAbsent(x[1..], skip + {x[0]}, y);
      }
    }
  }

  /** `r` holds, in order, one six-line section per name of `u`, each with
      that name's value in `d`. */
  predicate SectionsFor(r: seq<string>, u: seq<string>, d: seq<(string, string)>) {
    |r| == 6 * |u| &&
    forall t :: 0 <= t < |u| ==>
      Lookup(d, u[t]).Some? && r[6 * t..6 * t + 6] == KeySection(u[t], Lookup(d, u[t]).value)
  }

  /** A dict whose keys are distinct holds, in order, one six-line section per
      key outside `skip`, each with that key's value. */
  lemma {:induction false} KeyLinesSections(d: seq<(string, string)>, skip: set<string>)
    requires forall a, b :: 0 <= a < b < |d| ==> d[a].0 != d[b].0
    ensures SectionsFor(KeyLines(d, skip), Unseen(KeysOf(d), skip), d)
    decreases |d|
  {
    if d != [] {
      var rest := d[1..];
      KeyLinesSections(rest, skip);
      SectionsStep(d, skip, rest, KeyLines(rest, skip), Unseen(KeysOf(rest), skip));
    }
  }

  /** The step of `KeyLinesSections`: the first key's section, if it is not
      skipped, comes before those of the other keys. */
  lemma SectionsStep(d: seq<(string, string)>, skip: set<string>, rest: seq<(string, string)>,
                     r': seq<string>, u': seq<string>)
    requires d != [] && rest == d[1..]
    requires forall a, b :: 0 <= a < b < |d| ==> d[a].0 != d[b].0
    requires r' == KeyLines(rest, skip) && u' == Unseen(KeysOf(rest), skip)
    requires SectionsFor(r', u', rest)
    ensures SectionsFor(KeyLines(d, skip), Unseen(KeysOf(d), skip), d)
  {
    FirstKeyFresh(d);
    LookupsAgree(d, skip);
    if d[0].0 !in skip {
      SectionsKept(d, skip, rest, r', u');
    } else {
      SectionsSkipped(d, skip, rest, r', u');
    }
  }

  lemma SectionsKept(d: seq<(string, string)>, skip: set<string>, rest: seq<(string, string)>,
                     r': seq<string>, u': seq<string>)
    requires d != [] && rest == d[1..] && d[0].0 !in skip && d[0].0 !in KeysOf(rest)
    requires r' == KeyLines(rest, skip) && u' == Unseen(KeysOf(rest), skip)
    requires forall t :: 0 <= t < |u'| ==> u'[t] != d[0].0 && Lookup(d, u'[t]) == Lookup(rest, u'[t])
    requires SectionsFor(r', u', rest)
    ensures SectionsFor(KeyLines(d, skip), Unseen(KeysOf(d), skip), d)
  {
    var k := d[0].0;
    assert KeysOf(d) == [k] + KeysOf(rest);
    UnseenCons(k, KeysOf(rest), skip);
    UnseenAbsent(KeysOf(rest), skip, k);
    ChunksCons(KeySection(k, d[0].1), r', u', k, d, rest);
  }

  lemma SectionsSkipped(d: seq<(string, string)>, skip: set<string>, rest: seq<(string, string)>,
                        r': seq<string>, u': seq<string>)
    requires d != [] && rest == d[1..] && d[0].0 in skip
    requires r' == KeyLines(rest, skip) && u' == Unseen(KeysOf(rest), skip)
    requires forall t :: 0 <= t < |u'| ==> Lookup(d, u'[t]) == Lookup(rest, u'[t])
    requires SectionsFor(r', u', rest)
    ensures SectionsFor(KeyLines(d, skip), Unseen(KeysOf(d), skip), d)
  {
    assert KeysOf(d) == [d[0].0] + KeysOf(rest);
    UnseenCons(d[0].0, KeysOf(rest), skip);
    SectionsSame(r', u', d, rest);
    assert KeyLines(d, skip) == [] + r' == r';
    SectionsEq(KeyLines(d, skip), Unseen(KeysOf(d), skip), r', u', d);
  }

  lemma SectionsEq(r1: seq<string>, u1: seq<string>, r2: seq<string>, u2: seq<string>, d: seq<(string, string)>)
    requires r1 == r2 && u1 == u2 && SectionsFor(r2, u2, d)
    ensures SectionsFor(r1, u1, d)
  {
  }

  /** The first key of a dict with distinct keys is none of the others. */
  lemma FirstKeyFresh(d: seq<(string, string)>)
    requires d != []
    requires forall a, b :: 0 <= a < b < |d| ==> d[a].0 != d[b].0
    ensures d[0].0 !in KeysOf(d[1..])
  {
    var rest := d[1..];
    forall i | 0 <= i < |rest| ensures KeysOf(rest)[i] != d[0].0 {
      assert rest[i] == d[i + 1];
    }
  }

  /** Past the first key, the dict and its tail agree on every other name. */
  lemma LookupsAgree(d: seq<(string, string)>, skip: set<string>)
    requires d != [] && d[0].0 !in KeysOf(d[1..])
    ensures var u' := Unseen(KeysOf(d[1..]), skip);
            forall t :: 0 <= t < |u'| ==> u'[t] != d[0].0 && Lookup(d, u'[t]) == Lookup(d[1..], u'[t])
  {
    var u' := Unseen(KeysOf(d[1..]), skip);
    forall t | 0 <= t < |u'| ensures u'[t] != d[0].0 && Lookup(d, u'[t]) == Lookup(d[1..], u'[t]) {
      assert u'[t] in KeysOf(d[1..]);
    }
  }

  /** Lookups that agree keep the sections. */
  lemma SectionsSame(r: seq<string>, u: seq<string>, d: seq<(string, string)>, rest: seq<(string, string)>)
    requires SectionsFor(r, u, rest)
    requires forall t :: 0 <= t < |u| ==> Lookup(d, u[t]) == Lookup(rest, u[t])
    ensures SectionsFor(r, u, d)
  {
  }

  /** The step of `KeyLinesSections` for a key outside `skip`. */
  lemma ChunksCons(head: seq<string>, r': seq<string>, u': seq<string>, k: string,
                   d: seq<(string, string)>, rest: seq<(string, string)>)
    requires d != [] && d[0].0 == k && rest == d[1..] && head == KeySection(k, d[0].1)
    requires forall t :: 0 <= t < |u'| ==> u'[t] != k && Lookup(d, u'[t]) == Lookup(rest, u'[t])
    requires SectionsFor(r', u', rest)
    ensures SectionsFor(head + r', [k] + u', d)
  {
    var u := [k] + u';
    var r := head + r';
    forall t | 0 <= t < |u|
      ensures Lookup(d, u[t]).Some? && r[6 * t..6 * t + 6] == KeySection(u[t], Lookup(d, u[t]).value)
    {
      if t == 0 {
        assert r[..6] == head;
      } else {
        assert u[t] == u'[t - 1];
        assert r[6 * t..6 * t + 6] == r'[6 * (t - 1)..6 * (t - 1) + 6];
      }
    }
  }

  /** The block `insert_keys` builds from the specs' pairs: one section per
      variable outside `skip`, in order of first appearance, each with the key
      of that variable's last pair. */
  lemma KeyBlock(pairs: seq<(string, string)>, skip: set<string>)
    ensures var u := Unseen(KeysOf(pairs), skip);
            var r := KeyLines(DictOf(pairs), skip);
            |r| == 6 * |u| &&
            forall t :: 0 <= t < |u| ==>
              LastValue(pairs, u[t], None).Some? &&
              r[6 * t..6 * t + 6] == KeySection(u[t], LastValue(pairs, u[t], None).value)
  {
    var d := DictOf(pairs);
    DictOfSpec(pairs);
    forall a, b | 0 <= a < b < |d| ensures d[a].0 != d[b].0 {
      assert KeysOf(d)[a] == d[a].0 && KeysOf(d)[b] == d[b].0;
    }
    KeyLinesSections(d, skip);
    UnseenTwice(KeysOf(pairs), {}, skip);
    assert {} + skip == skip;
    var u := Unseen(KeysOf(pairs), skip);
    forall t | 0 <= t < |u| ensures Lookup(d, u[t]) == LastValue(pairs, u[t], None) {
      DictFoldValues(pairs, [], u[t]);
    }
  }

  /** No section is generated when every variable is skipped. */
  lemma KeyLinesAllSkipped(pairs: seq<(string, string)>, skip: set<string>)
    requires forall i :: 0 <= i < |pairs| ==> pairs[i].0 in skip
    ensures KeyLines(DictOf(pairs), skip) == []
  {
    DictOfSpec(pairs);
    var d := DictOf(pairs);
    forall i | 0 <= i < |d| ensures d[i].0 in skip {
      assert KeysOf(d)[i] == d[i].0;
      assert d[i].0 in KeysOf(pairs);
      var j :| 0 <= j < |pairs| && KeysOf(pairs)[j] == d[i].0;
    }
  }
}
