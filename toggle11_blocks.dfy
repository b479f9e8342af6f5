/** Toggle maker v1.1.0: the key-variable catalogue (`find_key_vars`) and the
    guard-span detector (`detect_toggle_blocks`). */
module Toggle11Blocks {
  import opened PyText
  import opened IniPatterns
  import opened IniSections

  // ---------------------------------------------------------------------
  // find_key_vars. Each line is seen once, as a header with its name or as a
  // body line with the variable its cycle declaration names, if any.

  datatype KeyLine = KHead(name: string) | KBody(decl: Option<string>)

  function KeyLineOf(line: string): (r: KeyLine)
    ensures r.KHead? <==> IsHeader(line)
    ensures r.KHead? ==> r.name == HeaderName(line)
    ensures r.KBody? ==> r.decl == KeyDeclVar(Strip(line))
  {
    if IsHeader(line) then KHead(HeaderName(line)) else KBody(KeyDeclVar(Strip(line)))
  }

  function KeyScan(lines: seq<string>): (kl: seq<KeyLine>)
    ensures |kl| == |lines|
    ensures forall i :: 0 <= i < |lines| ==> kl[i] == KeyLineOf(lines[i])
  {
    seq(|lines|, i requires 0 <= i < |lines| => KeyLineOf(lines[i]))
  }

  /** The name of the last header strictly before line `i`, if there is one. */
  function SectionBefore(kl: seq<KeyLine>, i: nat): Option<string>
    requires i <= |kl|
    decreases i
  {
    if i == 0 then None
    else if kl[i - 1].KHead? then Some(kl[i - 1].name)
    else SectionBefore(kl, i - 1)
  }

  /** Line `i` lies in a section whose name, lower-cased, starts with `key`. */
  predicate InKeySection(kl: seq<KeyLine>, i: nat)
    requires i < |kl|
  {
    match SectionBefore(kl, i)
    case Some(name) => StartsWith(Lower(name), "key")
    case None => false
  }

  /** Line `i` of a key section, not itself a header, declares `$v = 0,1`. */
  predicate DeclaresKeyVar(kl: seq<KeyLine>, i: nat, v: string)
    requires i < |kl|
  {
    kl[i].KBody? && InKeySection(kl, i) && kl[i].decl == Some(v)
  }

  /** The walk of `find_key_vars` over the classified lines. */
  method CollectKeyVars(kl: seq<KeyLine>) returns (found: set<string>)
    ensures forall v :: v in found <==> exists i :: 0 <= i < |kl| && DeclaresKeyVar(kl, i, v)
  {
    found := {};
    var secName: Option<string> := None;
    var i := 0;
    while i < |kl|
      invariant 0 <= i <= |kl|
      invariant secName == SectionBefore(kl, i)
      invariant forall v :: v in found <==> exists k :: 0 <= k < i && DeclaresKeyVar(kl, k, v)
    {
      ghost var before := found;
      match kl[i] {
        case KHead(name) =>
          secName := Some(name);
        case KBody(decl) =>
          if secName.Some? && StartsWith(Lower(secName.value), "key") && decl.Some? {
            found := found + {decl.value};
          }
      }
      // line i adds exactly the variable it declares, if it declares one
      assert forall v :: v in found <==> v in before || DeclaresKeyVar(kl, i, v);
      i := i + 1;
    }
  }

  /** `find_key_vars`: the variables declared by a cycle line inside a key
      section. Each line is classified first (`KeyScan`), then walked. */
  method FindKeyVars(lines: seq<string>) returns (found: set<string>)
    ensures forall v :: v in found <==>
              exists i :: 0 <= i < |lines| && DeclaresKeyVar(KeyScan(lines), i, v)
  {
    var kl := KeyScan(lines);
    found := CollectKeyVars(kl);
  }

  // ---------------------------------------------------------------------
  // detect_toggle_blocks. Each line is classified once: the variable of the
  // guard it opens, whether it is an `endif`, whether it is a header, and how
  // the body scan counts it.

  /** `E` (one draw line and nothing else), `M` (anything else), or no toggle. */
  datatype Status = NoToggle | Simple | Mixed

  /** What the detector records for each draw line of a guard span. */
  datatype Toggle = Toggle(variable: string, ifStart: nat, ifEnd: nat, status: Status)

  /** A body line is skipped (blank or comment), counted as a draw, or makes the span mixed. */
  datatype BodyKind = Quiet | BodyDraw | Busy

  datatype BlockLine = BlockLine(guard: Option<string>, endif: bool, header: bool, body: BodyKind)

  function BlockLineOf(line: string): (r: BlockLine)
    ensures r.guard == GuardMatch(Strip(line))
    ensures r.endif <==> Lower(Strip(line)) == "endif"
    ensures r.header <==> IsHeader(line)
    ensures r.body == Quiet <==> Strip(line) == [] || StartsWith(Strip(line), ";")
    ensures r.body == BodyDraw <==> Strip(line) != [] && !StartsWith(Strip(line), ";") &&
                                    Contains(Strip(line), "drawindexed")
  {
    var t := Strip(line);
    var body := if t == [] || StartsWith(t, ";") then Quiet
                else if Contains(t, "drawindexed") then BodyDraw
                else Busy;
    BlockLine(GuardMatch(t), Lower(t) == "endif", IsHeader(line), body)
  }

  function BlockScan(lines: seq<string>): (bl: seq<BlockLine>)
    ensures |bl| == |lines|
    ensures forall i :: 0 <= i < |lines| ==> bl[i] == BlockLineOf(lines[i])
  {
    seq(|lines|, i requires 0 <= i < |lines| => BlockLineOf(lines[i]))
  }

  /** The closing `endif` at or after `j`, found before any header; the endif
      test comes first. */
  function EndifFrom(bl: seq<BlockLine>, j: nat): (r: Option<nat>)
    ensures r.Some? ==> j <= r.value < |bl| && bl[r.value].endif
    ensures r.Some? ==> forall k :: j <= k < r.value ==> !bl[k].header && !bl[k].endif
    decreases |bl| - j
  {
    if j >= |bl| then None
    else if bl[j].endif then Some(j)
    else if bl[j].header then None
    else EndifFrom(bl, j + 1)
  }

  /** The draw lines of `bl[a..b]`, in order. */
  function DrawsIn(bl: seq<BlockLine>, a: nat, b: nat): seq<nat>
    requires a <= b <= |bl|
    decreases b - a
  {
    if a == b then []
    else DrawsIn(bl, a, b - 1) + (if bl[b - 1].body == BodyDraw then [b - 1] else [])
  }

  /** `DrawsIn` lists exactly the draw lines of the range, in increasing order. */
  lemma DrawsInExact(bl: seq<BlockLine>, a: nat, b: nat)
    requires a <= b <= |bl|
    ensures forall k :: k in DrawsIn(bl, a, b) <==> a <= k < b && bl[k].body == BodyDraw
    ensures forall x, y :: 0 <= x < y < |DrawsIn(bl, a, b)| ==> DrawsIn(bl, a, b)[x] < DrawsIn(bl, a, b)[y]
    ensures forall x :: 0 <= x < |DrawsIn(bl, a, b)| ==> a <= DrawsIn(bl, a, b)[x] < b
  {
    DrawsInMembers(bl, a, b);
    DrawsInBounds(bl, a, b);
    DrawsInSorted(bl, a, b);
  }

  lemma {:induction false} DrawsInMembers(bl: seq<BlockLine>, a: nat, b: nat)
    requires a <= b <= |bl|
    ensures forall k :: k in DrawsIn(bl, a, b) <==> a <= k < b && bl[k].body == BodyDraw
    decreases b - a
  {
    if a < b {
      DrawsInMembers(bl, a, b - 1);
    }
  }

  lemma {:induction false} DrawsInBounds(bl: seq<BlockLine>, a: nat, b: nat)
    requires a <= b <= |bl|
    ensures forall x :: 0 <= x < |DrawsIn(bl, a, b)| ==> a <= DrawsIn(bl, a, b)[x] < b
    decreases b - a
  {
    if a < b {
      DrawsInBounds(bl, a, b - 1);
    }
  }

  lemma {:induction false} DrawsInSorted(bl: seq<BlockLine>, a: nat, b: nat)
    requires a <= b <= |bl|
    ensures forall x, y :: 0 <= x < y < |DrawsIn(bl, a, b)| ==> DrawsIn(bl, a, b)[x] < DrawsIn(bl, a, b)[y]
    decreases b - a
  {
    if a < b {
      DrawsInSorted(bl, a, b - 1);
      DrawsInBounds(bl, a, b - 1);
    }
  }

  /** `bl[a..b]` holds a line that is neither quiet nor a draw. */
  predicate MixedIn(bl: seq<BlockLine>, a: nat, b: nat)
    requires a <= b <= |bl|
  {
    exists k :: a <= k < b && bl[k].body == Busy
  }

  /** Record `t` for every index of `ds`. */
  function Record(acc: map<nat, Toggle>, ds: seq<nat>, t: Toggle): map<nat, Toggle>
    decreases |ds|
  {
    if ds == [] then acc else Record(acc[ds[0] := t], ds[1..], t)
  }

  /** Recording maps the listed indices to `t` and keeps every other entry. */
  lemma {:induction false} RecordSpec(acc: map<nat, Toggle>, ds: seq<nat>, t: Toggle)
    ensures forall k :: k in Record(acc, ds, t) <==> k in acc || k in ds
    ensures forall k :: k in Record(acc, ds, t) ==> Record(acc, ds, t)[k] == if k in ds then t else acc[k]
    decreases |ds|
  {
    if ds != [] {
      RecordSpec(acc[ds[0] := t], ds[1..], t);
    }
  }

  /** The status of a recorded span: `E` for a lone draw line, `M` otherwise. */
  function SpanStatus(bl: seq<BlockLine>, a: nat, b: nat): Status
    requires a <= b <= |bl|
  {
    if !MixedIn(bl, a, b) && |DrawsIn(bl, a, b)| == 1 then Simple else Mixed
  }

  /** The toggle map the detector builds from line `i` on, on top of `acc`. */
  function Detect(bl: seq<BlockLine>, keyVars: set<string>, i: nat, acc: map<nat, Toggle>): map<nat, Toggle>
    decreases |bl| - i
  {
    if i >= |bl| then acc
    else
      match bl[i].guard
      case None => Detect(bl, keyVars, i + 1, acc)
      case Some(v) =>
        match EndifFrom(bl, i + 1)
        case None => Detect(bl, keyVars, i + 1, acc)
        case Some(e) =>
          var ds := DrawsIn(bl, i + 1, e);
          if ds == [] || v !in keyVars then Detect(bl, keyVars, e + 1, acc)
          else Detect(bl, keyVars, e + 1, Record(acc, ds, Toggle(v, i, e, SpanStatus(bl, i + 1, e))))
  }

  /** One step of the detector: a line that opens no guard, or a guard with no
      `endif` in its section, moves on to the next line. */
  lemma DetectNext(bl: seq<BlockLine>, keyVars: set<string>, i: nat, acc: map<nat, Toggle>)
    requires i < |bl|
    requires bl[i].guard.None? || EndifFrom(bl, i + 1).None?
    ensures Detect(bl, keyVars, i, acc) == Detect(bl, keyVars, i + 1, acc)
  {
  }

  /** One step of the detector: a closed guard span resumes after its `endif`,
      recording its draw lines when it has some and its variable is known. */
  lemma DetectSpan(bl: seq<BlockLine>, keyVars: set<string>, i: nat, e: nat, acc: map<nat, Toggle>)
    requires i < |bl| && bl[i].guard.Some? && EndifFrom(bl, i + 1) == Some(e)
    ensures var ds := DrawsIn(bl, i + 1, e);
            var v := bl[i].guard.value;
            Detect(bl, keyVars, i, acc) ==
              if ds == [] || v !in keyVars then Detect(bl, keyVars, e + 1, acc)
              else Detect(bl, keyVars, e + 1, Record(acc, ds, Toggle(v, i, e, SpanStatus(bl, i + 1, e))))
  {
  }

  /** A guard at `i` whose span has no draw line, or whose variable has no key
      section, never becomes a toggle: no detected entry starts at `i`. */
  lemma DetectSkips(bl: seq<BlockLine>, keyVars: set<string>, i: nat, e: nat)
    requires i < |bl| && bl[i].guard.Some? && EndifFrom(bl, i + 1) == Some(e)
    requires DrawsIn(bl, i + 1, e) == [] || bl[i].guard.value !in keyVars
    ensures forall k :: k in Detect(bl, keyVars, 0, map[]) ==> Detect(bl, keyVars, 0, map[])[k].ifStart != i
  {
    DetectSkipsFrom(bl, keyVars, 0, map[], i, e);
  }

  /** The same from any line `j` on, over entries that do not start at `i`. */
  lemma {:induction false} DetectSkipsFrom(bl: seq<BlockLine>, keyVars: set<string>, j: nat,
                                           acc: map<nat, Toggle>, i: nat, e: nat)
    requires i < |bl| && bl[i].guard.Some? && EndifFrom(bl, i + 1) == Some(e)
    requires DrawsIn(bl, i + 1, e) == [] || bl[i].guard.value !in keyVars
    requires forall k :: k in acc ==> acc[k].ifStart != i
    ensures forall k :: k in Detect(bl, keyVars, j, acc) ==> Detect(bl, keyVars, j, acc)[k].ifStart != i
    decreases |bl| - j
  {
    if j < |bl| {
      if bl[j].guard.None? || EndifFrom(bl, j + 1).None? {
        DetectNext(bl, keyVars, j, acc);
        DetectSkipsFrom(bl, keyVars, j + 1, acc, i, e);
      } else {
        var f := EndifFrom(bl, j + 1).value;
        var ds := DrawsIn(bl, j + 1, f);
        var v := bl[j].guard.value;
        DetectSpan(bl, keyVars, j, f, acc);
        if ds == [] || v !in keyVars {
          DetectSkipsFrom(bl, keyVars, f + 1, acc, i, e);
        } else {
          var t := Toggle(v, j, f, SpanStatus(bl, j + 1, f));
          RecordSpec(acc, ds, t);
          DetectSkipsFrom(bl, keyVars, f + 1, Record(acc, ds, t), i, e);
        }
      }
    }
  }

  /** What every recorded entry satisfies: `k` is a draw line strictly inside a
      guard of a known variable that closes with `endif` before any header, and
      the status is `E` exactly when that draw is the span's only line that is
      neither blank nor a comment. */
  predicate Sound(bl: seq<BlockLine>, keyVars: set<string>, k: nat, t: Toggle) {
    t.ifStart < k < t.ifEnd < |bl| &&
    bl[t.ifStart].guard == Some(t.variable) && t.variable in keyVars &&
    bl[t.ifEnd].endif &&
    (forall m :: t.ifStart < m < t.ifEnd ==> !bl[m].header) &&
    bl[k].body == BodyDraw &&
    t.status != NoToggle &&
    (t.status == Simple <==>
       DrawsIn(bl, t.ifStart + 1, t.ifEnd) == [k] && !MixedIn(bl, t.ifStart + 1, t.ifEnd))
  }

  lemma SpanSound(bl: seq<BlockLine>, keyVars: set<string>, i: nat, e: nat, k: nat, v: string)
    requires i < |bl| && bl[i].guard == Some(v) && v in keyVars
    requires EndifFrom(bl, i + 1) == Some(e)
    requires k in DrawsIn(bl, i + 1, e)
    ensures Sound(bl, keyVars, k, Toggle(v, i, e, SpanStatus(bl, i + 1, e)))
  {
    DrawsInExact(bl, i + 1, e);
    var ds := DrawsIn(bl, i + 1, e);
    if |ds| == 1 {
      assert ds[0] == k;
      assert ds == [k];
    }
  }

  /** Every entry of the detector's map is sound. */
  lemma {:induction false} DetectSound(bl: seq<BlockLine>, keyVars: set<string>, i: nat, acc: map<nat, Toggle>)
    requires forall k :: k in acc ==> Sound(bl, keyVars, k, acc[k])
    ensures var m := Detect(bl, keyVars, i, acc);
            forall k :: k in m ==> Sound(bl, keyVars, k, m[k])
    decreases |bl| - i
  {
    if i < |bl| {
      if bl[i].guard.None? || EndifFrom(bl, i + 1).None? {
        DetectNext(bl, keyVars, i, acc);
        DetectSound(bl, keyVars, i + 1, acc);
      } else {
        var v := bl[i].guard.value;
        var e := EndifFrom(bl, i + 1).value;
        DetectSpan(bl, keyVars, i, e, acc);
        var ds := DrawsIn(bl, i + 1, e);
        if ds == [] || v !in keyVars {
          DetectSound(bl, keyVars, e + 1, acc);
        } else {
          var t := Toggle(v, i, e, SpanStatus(bl, i + 1, e));
          var acc' := Record(acc, ds, t);
          RecordSpec(acc, ds, t);
          forall k | k in acc' ensures Sound(bl, keyVars, k, acc'[k]) {
            if k in ds {
              SpanSound(bl, keyVars, i, e, k, v);
            }
          }
          DetectSound(bl, keyVars, e + 1, acc');
        }
      }
    }
  }

  /** The inner search for the `endif` that closes the guard above `from`. */
  method FindEndif(bl: seq<BlockLine>, from: nat) returns (endIdx: Option<nat>)
    requires from <= |bl|
    ensures endIdx == EndifFrom(bl, from)
  {
    var j := from;
    endIdx := None;
    while j < |bl|
      invariant from <= j <= |bl|
      invariant EndifFrom(bl, from) == EndifFrom(bl, j)
      invariant endIdx.None?
      decreases |bl| - j
    {
      if bl[j].endif {
        endIdx := Some(j);
        return;
      }
      if bl[j].header {
        return;
      }
      j := j + 1;
    }
  }

  /** The inspection of a guard body: its draw lines, and whether any other
      line that is neither blank nor a comment occurs. */
  method InspectBody(bl: seq<BlockLine>, a: nat, b: nat) returns (draws: seq<nat>, mixed: bool)
    requires a <= b <= |bl|
    ensures draws == DrawsIn(bl, a, b)
    ensures mixed <==> MixedIn(bl, a, b)
  {
    draws := [];
    mixed := false;
    var k := a;
    while k < b
      invariant a <= k <= b
      invariant draws == DrawsIn(bl, a, k)
      invariant mixed <==> MixedIn(bl, a, k)
    {
      if bl[k].body == BodyDraw {
        draws := draws + [k];
      } else if bl[k].body == Busy {
        mixed := true;
      }
      k := k + 1;
    }
  }

  /** `toggle_map[k] = ...` for every draw line of a span. */
  method RecordAll(acc: map<nat, Toggle>, ds: seq<nat>, t: Toggle) returns (r: map<nat, Toggle>)
    ensures r == Record(acc, ds, t)
  {
    r := acc;
    var d := 0;
    while d < |ds|
      invariant 0 <= d <= |ds|
      invariant Record(r, ds[d..], t) == Record(acc, ds, t)
    {
      assert ds[d..][1..] == ds[d + 1..];
      r := r[ds[d] := t];
      d := d + 1;
    }
  }

  /** The walk of `detect_toggle_blocks` over the classified lines. */
  method ScanToggleBlocks(bl: seq<BlockLine>, keyVars: set<string>) returns (toggles: map<nat, Toggle>)
    ensures toggles == Detect(bl, keyVars, 0, map[])
  {
    toggles := map[];
    var n := |bl|;
    var i := 0;
    while i < n
      invariant 0 <= i
      invariant Detect(bl, keyVars, i, toggles) == Detect(bl, keyVars, 0, map[])
      decreases n - i
    {
      if bl[i].guard.None? {
        DetectNext(bl, keyVars, i, toggles);
        i := i + 1;
        continue;
      }
      var v := bl[i].guard.value;
      var endIdx := FindEndif(bl, i + 1);
      if endIdx.None? {
        DetectNext(bl, keyVars, i, toggles);
        i := i + 1;
        continue;
      }
      var e := endIdx.value;
      DetectSpan(bl, keyVars, i, e, toggles);
      var draws, mixed := InspectBody(bl, i + 1, e);
      if draws == [] || v !in keyVars {
        i := e + 1;
        continue;
      }
      var status := if !mixed && |draws| == 1 then Simple else Mixed;
      toggles := RecordAll(toggles, draws, Toggle(v, i, e, status));
      i := e + 1;
    }
  }

  /** `detect_toggle_blocks`: every line is classified (`BlockScan`), then
      walked; each recorded draw line is sound. */
  method DetectToggleBlocks(lines: seq<string>, keyVars: set<string>) returns (toggles: map<nat, Toggle>)
    ensures toggles == Detect(BlockScan(lines), keyVars, 0, map[])
    ensures forall k :: k in toggles ==> Sound(BlockScan(lines), keyVars, k, toggles[k])
  {
    var bl := BlockScan(lines);
    toggles := ScanToggleBlocks(bl, keyVars);
    DetectSound(bl, keyVars, 0, map[]);
  }
}
