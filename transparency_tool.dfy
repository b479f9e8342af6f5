/** Transparency maker: the state of the tool and its three actions without
    the dialogs. `scan_ini` loads a file, lists its draw directives per
    component and finds the next free shader index; `add_transparency`
    queues one change per (component, parameters), giving each new pair a
    fresh shader name; `apply_changes` rewrites the file with the queue. */
module TransparencyTool {
  import opened PyText
  import opened IniPatterns
  import opened TransparencyScan
  import opened TransparencyApply

  // ---------------------------------------------------------------------
  // The queue of `add_transparency`, on values.

  /** The position of the first queued change filed under `key`, looking
      from position `i` on. */
  function FindFrom(cs: seq<Change>, key: (nat, Params), i: nat): (r: Option<nat>)
    requires i <= |cs|
    ensures r.Some? ==> i <= r.value < |cs|
    decreases |cs| - i
  {
    if i == |cs| then None
    else if KeyOf(cs[i]) == key then Some(i)
    else FindFrom(cs, key, i + 1)
  }

  /** `existing_idx`: the first queued change filed under `key`. */
  function FirstKey(cs: seq<Change>, key: (nat, Params)): (r: Option<nat>)
    ensures r.Some? ==> r.value < |cs|
  {
    FindFrom(cs, key, 0)
  }

  /** The search finds the first change with the key, or there is none. */
  lemma {:induction false} FindFromSpec(cs: seq<Change>, key: (nat, Params), i: nat)
    requires i <= |cs|
    ensures FindFrom(cs, key, i).Some? ==>
              var j := FindFrom(cs, key, i).value;
              i <= j < |cs| && KeyOf(cs[j]) == key && forall m :: i <= m < j ==> KeyOf(cs[m]) != key
    ensures FindFrom(cs, key, i).None? ==> forall m :: i <= m < |cs| ==> KeyOf(cs[m]) != key
    decreases |cs| - i
  {
    if i < |cs| && KeyOf(cs[i]) != key {
      FindFromSpec(cs, key, i + 1);
    }
  }

  /** The `for i, ch in enumerate(self.pending_changes)` loop, which stops at
      the first match. */
  method FindQueued(cs: seq<Change>, key: (nat, Params)) returns (idx: Option<nat>)
    ensures idx == FirstKey(cs, key)
    ensures idx.Some? ==> idx.value < |cs| && KeyOf(cs[idx.value]) == key &&
                          forall m :: 0 <= m < idx.value ==> KeyOf(cs[m]) != key
    ensures idx.None? ==> forall m :: 0 <= m < |cs| ==> KeyOf(cs[m]) != key
  {
    idx := None;
    var i := 0;
    while i < |cs|
      invariant 0 <= i <= |cs|
      invariant FindFrom(cs, key, i) == FirstKey(cs, key)
      invariant forall m :: 0 <= m < i ==> KeyOf(cs[m]) != key
    {
      if KeyOf(cs[i]) == key {
        idx := Some(i);
        break;
      }
      i := i + 1;
    }
    FindFromSpec(cs, key, 0);
  }

  /** `pending_changes` and `next_shader_index` together. */
  datatype Queue = Queue(changes: seq<Change>, next: nat)

  /** The queue after a change is asked for. A pair already queued is left
      alone unless the user agrees to overwrite it, and is then replaced in
      place under its old shader name. A new pair is appended under the name
      for the next index, and the index moves on by one. */
  function Enqueue(q: Queue, comp: nat, params: Params, comment: string, blend: Blend, overwrite: bool): Queue {
    match FirstKey(q.changes, (comp, params))
    case Some(i) =>
      if !overwrite then q
      else Queue(q.changes[i := Change(comp, params, comment, blend, q.changes[i].shaderName)], q.next)
    case None =>
      Queue(q.changes + [Change(comp, params, comment, blend, ShaderName(q.next))], q.next + 1)
  }

  /** Every shader name reads back as an index below `next`. */
  predicate NamedBelow(cs: seq<Change>, next: nat) {
    forall i :: 0 <= i < |cs| ==> NameIndex(cs[i].shaderName).Some? && NameIndex(cs[i].shaderName).value < next
  }

  predicate DistinctNames(cs: seq<Change>) {
    forall i, j :: 0 <= i < j < |cs| ==> cs[i].shaderName != cs[j].shaderName
  }

  /** What the tool keeps true of its queue. */
  predicate QueueValid(q: Queue) {
    UniqueKeys(q.changes) && NamedBelow(q.changes, q.next) && DistinctNames(q.changes) && q.next >= 1
  }

  /** The queue never holds two changes with the same key, and the shader
      names stay distinct, each below the next index. */
  lemma EnqueueValid(q: Queue, comp: nat, params: Params, comment: string, blend: Blend, overwrite: bool)
    requires QueueValid(q)
    ensures QueueValid(Enqueue(q, comp, params, comment, blend, overwrite))
  {
    var key := (comp, params);
    FindFromSpec(q.changes, key, 0);
    var r := Enqueue(q, comp, params, comment, blend, overwrite);
    if FirstKey(q.changes, key).None? {
      var nm := ShaderName(q.next);
      ShaderNameIndex(q.next);
      var cs := r.changes;
      assert cs[|q.changes|].shaderName == nm;
      forall i | 0 <= i < |q.changes| ensures cs[i].shaderName != nm {
        assert cs[i] == q.changes[i];
      }
    }
  }

  /** How the queue changes: nothing, one entry replaced in place under its
      old name, or one entry appended under the name for the next index. */
  lemma EnqueueEffect(q: Queue, comp: nat, params: Params, comment: string, blend: Blend, overwrite: bool)
    ensures var r := Enqueue(q, comp, params, comment, blend, overwrite);
            var key := (comp, params);
            match FirstKey(q.changes, key)
            case Some(i) =>
              i < |q.changes| && KeyOf(q.changes[i]) == key &&
              (!overwrite ==> r == q) &&
              (overwrite ==>
                 r.next == q.next && |r.changes| == |q.changes| &&
                 r.changes[i] == Change(comp, params, comment, blend, q.changes[i].shaderName) &&
                 forall j :: 0 <= j < |q.changes| && j != i ==> r.changes[j] == q.changes[j])
            case None =>
              (forall j :: 0 <= j < |q.changes| ==> KeyOf(q.changes[j]) != key) &&
              r.next == q.next + 1 &&
              r.changes == q.changes + [Change(comp, params, comment, blend, ShaderName(q.next))]
  {
    FindFromSpec(q.changes, (comp, params), 0);
  }

  /** What `apply_changes` looks up afterwards: the change just asked for,
      under its key, and every other key as before. */
  lemma EnqueueLookup(q: Queue, comp: nat, params: Params, comment: string, blend: Blend, overwrite: bool)
    requires UniqueKeys(q.changes)
    ensures var r := Enqueue(q, comp, params, comment, blend, overwrite);
            var key := (comp, params);
            match FirstKey(q.changes, key)
            case Some(i) =>
              PendingMap(r.changes) ==
              if overwrite then PendingMap(q.changes)[key := Change(comp, params, comment, blend, q.changes[i].shaderName)]
              else PendingMap(q.changes)
            case None =>
              PendingMap(r.changes) == PendingMap(q.changes)[key := Change(comp, params, comment, blend, ShaderName(q.next))]
  {
    var key := (comp, params);
    FindFromSpec(q.changes, key, 0);
    match FirstKey(q.changes, key) {
      case Some(i) =>
        if overwrite {
          PendingMapReplace(q.changes, i, Change(comp, params, comment, blend, q.changes[i].shaderName));
        }
      case None =>
        assert (q.changes + [Change(comp, params, comment, blend, ShaderName(q.next))])[..|q.changes|] == q.changes;
    }
  }

  /** Replacing a change by one with the same key updates that key of the
      map and nothing else, when the keys are unique. */
  lemma {:induction false} PendingMapReplace(cs: seq<Change>, i: nat, c: Change)
    requires i < |cs| && KeyOf(cs[i]) == KeyOf(c) && UniqueKeys(cs)
    ensures PendingMap(cs[i := c]) == PendingMap(cs)[KeyOf(c) := c]
    decreases |cs|
  {
    var ds := cs[i := c];
    var pre := cs[..|cs| - 1];
    if i == |cs| - 1 {
      assert ds[..|ds| - 1] == pre;
    } else {
      assert ds[..|ds| - 1] == pre[i := c];
      assert UniqueKeys(pre) by {
        forall a, b | 0 <= a < b < |pre| ensures KeyOf(pre[a]) != KeyOf(pre[b]) {
          assert pre[a] == cs[a] && pre[b] == cs[b];
        }
      }
      PendingMapReplace(pre, i, c);
      assert KeyOf(cs[|cs| - 1]) != KeyOf(c);
      assert ds[|ds| - 1] == cs[|cs| - 1];
    }
  }

  // ---------------------------------------------------------------------
  // The tool.

  class TransparencyTool {
    var iniPath: Option<string>
    var componentDraws: map<nat, seq<DrawRecord>>
    var pendingChanges: seq<Change>
    var nextShaderIndex: nat

    predicate Valid()
      reads this
    {
      QueueValid(Queue(pendingChanges, nextShaderIndex))
    }

    constructor ()
      ensures Valid()
      ensures iniPath == None && componentDraws == map[] && pendingChanges == [] && nextShaderIndex == 1
    {
      iniPath := None;
      componentDraws := map[];
      pendingChanges := [];
      nextShaderIndex := 1;
    }

    /** `scan_ini`. `file` is the content of the file at `path` as a list of
        lines, or `None` when `path` names no file. An empty path or a
        missing file is an error that changes nothing. Otherwise the queue is
        cleared, the next shader index is one above every index already in
        the file, and each component lists its exact draw directives. */
    method ScanIni(path: string, file: Option<seq<string>>)
      requires Valid()
      modifies this
      ensures Valid()
      ensures Strip(path) == "" || file.None? ==>
                iniPath == old(iniPath) && componentDraws == old(componentDraws) &&
                pendingChanges == old(pendingChanges) && nextShaderIndex == old(nextShaderIndex)
      ensures Strip(path) != "" && file.Some? ==>
                iniPath == Some(Strip(path)) && pendingChanges == [] &&
                nextShaderIndex == MaxShaderIndex(file.value, |file.value|) + 1 &&
                componentDraws == ScanDraws(file.value)
    {
      var p := Strip(path);
      if p == "" || file.None? {
        return;
      }
      var lines := file.value;
      iniPath := Some(p);
      componentDraws := map[];
      pendingChanges := [];
      nextShaderIndex := ScanExistingShaderIndex(lines);
      var ks := ScanKinds(lines);
      ParseLines(lines, ks);
    }

    /** The parse loop of `scan_ini`, over the lines as classified. */
    method ParseLines(lines: seq<string>, ks: seq<ScanKind>)
      requires |ks| == |lines| && componentDraws == map[]
      modifies this
      ensures componentDraws == ScanUpTo(lines, ks, |lines|).draws
      ensures iniPath == old(iniPath) && pendingChanges == old(pendingChanges) &&
              nextShaderIndex == old(nextShaderIndex)
    {
      var currentComp: Option<nat> := None;
      var lastComment: Option<string> := None;
      var i := 0;
      while i < |lines|
        invariant 0 <= i <= |lines|
        invariant ScanState(currentComp, lastComment, componentDraws) == ScanUpTo(lines, ks, i)
        invariant iniPath == old(iniPath) && pendingChanges == old(pendingChanges) &&
                  nextShaderIndex == old(nextShaderIndex)
      {
        var line := lines[i];
        match ks[i] {
          case Remark(t) =>
            lastComment := Some(t);
          case Component(n) =>
            currentComp := Some(n);
            if n !in componentDraws {
              componentDraws := componentDraws[n := []];
            }
            lastComment := None;
          case Draw(p) =>
            if currentComp.Some? {
              var c := currentComp.value;
              var rec := DrawRecord(p, RStripNewlines(line), CommentOr(lastComment));
              componentDraws := componentDraws[c := componentDraws[c] + [rec]];
              lastComment := None;
            }
          case Skip =>
        }
        i := i + 1;
      }
    }

    /** `add_transparency`. `selected` is the draw picked in the list
        (component, parameters, comment), or `None`; `blend` is the chosen
        mode with its factors, or `None` when a dialog was cancelled;
        `overwrite` is the answer to the overwrite question. */
    method AddTransparency(selected: Option<(nat, Params, string)>, blend: Option<Blend>, overwrite: bool)
      requires Valid()
      modifies this
      ensures Valid()
      ensures iniPath == old(iniPath) && componentDraws == old(componentDraws)
      ensures selected.None? || blend.None? ==>
                pendingChanges == old(pendingChanges) && nextShaderIndex == old(nextShaderIndex)
      ensures selected.Some? && blend.Some? ==>
                Queue(pendingChanges, nextShaderIndex) ==
                Enqueue(Queue(old(pendingChanges), old(nextShaderIndex)),
                        selected.value.0, selected.value.1, selected.value.2, blend.value, overwrite)
    {
      if selected.None? || blend.None? {
        return;
      }
      var (comp, params, comment) := selected.value;
      var b := blend.value;
      ghost var q := Queue(pendingChanges, nextShaderIndex);
      EnqueueValid(q, comp, params, comment, b, overwrite);
      var existing := FindQueued(pendingChanges, (comp, params));
      match existing {
        case Some(i) =>
          if !overwrite {
            return;
          }
          var name := pendingChanges[i].shaderName;
          pendingChanges := pendingChanges[i := Change(comp, params, comment, b, name)];
        case None =>
          var name := ShaderName(nextShaderIndex);
          nextShaderIndex := nextShaderIndex + 1;
          pendingChanges := pendingChanges + [Change(comp, params, comment, b, name)];
      }
    }

    /** `apply_changes`. `file` is the content read back from `iniPath`. With
        no file loaded or nothing queued there is nothing to write; otherwise
        the rewritten lines are returned. The queue is not cleared. */
    method ApplyChanges(file: seq<string>) returns (written: Option<seq<string>>)
      ensures written.None? <==> iniPath.None? || iniPath.value == "" || pendingChanges == []
      ensures written.Some? ==> written.value == RewriteFile(file, PendingMap(pendingChanges))
    {
      if iniPath.None? || iniPath.value == "" {
        return None;
      }
      if pendingChanges == [] {
        return None;
      }
      var newLines := RewriteLines(file, PendingMap(pendingChanges));
      written := Some(newLines);
    }
  }
}
