/** The regular expressions of the three tools, each written out as an explicit
    matcher over a string. Every `(\w+)`, `(\d+)` and `\s*` of the patterns is
    followed by a character its class cannot contain, so Python's backtracking
    always settles on the maximal run; the matchers below take that run. A
    `search` tries every start position from left to right and reports the
    first one that matches; a `match` only tries position 0. */
module IniPatterns {
  import opened PyText

  /** End of the maximal run of whitespace starting at `p`. */
  function SpaceRunEnd(s: string, p: nat): (e: nat)
    requires p <= |s|
    ensures p <= e <= |s|
    ensures forall k :: p <= k < e ==> IsSpace(s[k])
    ensures e < |s| ==> !IsSpace(s[e])
    decreases |s| - p
  {
    if p < |s| && IsSpace(s[p]) then SpaceRunEnd(s, p + 1) else p
  }

  /** End of the maximal run of word characters starting at `p`. */
  function WordRunEnd(s: string, p: nat): (e: nat)
    requires p <= |s|
    ensures p <= e <= |s|
    ensures forall k :: p <= k < e ==> IsWordChar(s[k])
    ensures e < |s| ==> !IsWordChar(s[e])
    decreases |s| - p
  {
    if p < |s| && IsWordChar(s[p]) then WordRunEnd(s, p + 1) else p
  }

  /** End of the maximal run of ASCII digits starting at `p`. */
  function DigitRunEnd(s: string, p: nat): (e: nat)
    requires p <= |s|
    ensures p <= e <= |s|
    ensures forall k :: p <= k < e ==> IsDigit(s[k])
    ensures e < |s| ==> !IsDigit(s[e])
    decreases |s| - p
  {
    if p < |s| && IsDigit(s[p]) then DigitRunEnd(s, p + 1) else p
  }

  /** The literal `lit` (given in lower case) occurs at `p` under IGNORECASE. */
  predicate LiteralCI(s: string, p: nat, lit: string) {
    p + |lit| <= |s| && Lower(s[p..p + |lit|]) == lit
  }

  /** The literal `lit` occurs at `p`, case-sensitively. */
  predicate Literal(s: string, p: nat, lit: string) {
    p + |lit| <= |s| && s[p..p + |lit|] == lit
  }

  // ---------------------------------------------------------------------
  // `\$(\w+)\s*=\s*0,1\b` with `re.search`: the cycle declaration of a key
  // section. The result is the captured variable of the leftmost match.

  function KeyDeclAt(s: string, p: nat): Option<string>
    requires p <= |s|
  {
    if p < |s| && s[p] == '$' then
      var e := WordRunEnd(s, p + 1);
      if e == p + 1 then None
      else
        var q := SpaceRunEnd(s, e);
        if q < |s| && s[q] == '=' then
          var r := SpaceRunEnd(s, q + 1);
          if Literal(s, r, "0,1") && (r + 3 == |s| || !IsWordChar(s[r + 3])) then Some(s[p + 1..e])
          else None
        else None
    else None
  }

  function KeyDeclFrom(s: string, p: nat): Option<string>
    requires p <= |s|
    decreases |s| - p
  {
    if KeyDeclAt(s, p).Some? then KeyDeclAt(s, p)
    else if p == |s| then None
    else KeyDeclFrom(s, p + 1)
  }

  function KeyDeclVar(s: string): Option<string> {
    KeyDeclFrom(s, 0)
  }

  // ---------------------------------------------------------------------
  // `if\s+\$(\w+)\s*==\s*0\s*$` with `re.match` and IGNORECASE, applied to a
  // stripped line: the guard that opens a toggle block.

  function GuardMatch(s: string): Option<string> {
    if LiteralCI(s, 0, "if") then
      var a := SpaceRunEnd(s, 2);
      if a > 2 && a < |s| && s[a] == '$' then
        var e := WordRunEnd(s, a + 1);
        if e == a + 1 then None
        else
          var q := SpaceRunEnd(s, e);
          if Literal(s, q, "==") then
            var r := SpaceRunEnd(s, q + 2);
            if r < |s| && s[r] == '0' && SpaceRunEnd(s, r + 1) == |s| then Some(s[a + 1..e])
            else None
          else None
      else None
    else None
  }

  // ---------------------------------------------------------------------
  // `\bif\s+\$(\w+)\s*==\s*0\b` with `re.search` and IGNORECASE, applied to a
  // raw line: a use of a toggle variable, as the pruner looks for it.

  function GuardAt(s: string, p: nat): Option<string>
    requires p <= |s|
  {
    if (p == 0 || !IsWordChar(s[p - 1])) && LiteralCI(s, p, "if") then
      var a := SpaceRunEnd(s, p + 2);
      if a > p + 2 && a < |s| && s[a] == '$' then
        var e := WordRunEnd(s, a + 1);
        if e == a + 1 then None
        else
          var q := SpaceRunEnd(s, e);
          if Literal(s, q, "==") then
            var r := SpaceRunEnd(s, q + 2);
            if r < |s| && s[r] == '0' && (r + 1 == |s| || !IsWordChar(s[r + 1])) then Some(s[a + 1..e])
            else None
          else None
      else None
    else None
  }

  function GuardFrom(s: string, p: nat): Option<string>
    requires p <= |s|
    decreases |s| - p
  {
    if GuardAt(s, p).Some? then GuardAt(s, p)
    else if p == |s| then None
    else GuardFrom(s, p + 1)
  }

  function GuardUse(s: string): Option<string> {
    GuardFrom(s, 0)
  }

  // ---------------------------------------------------------------------
  // `persist\s+\$(\w+)` with `re.search`: a persisted-variable declaration.

  function PersistAt(s: string, p: nat): Option<string>
    requires p <= |s|
  {
    if Literal(s, p, "persist") then
      var a := SpaceRunEnd(s, p + 7);
      if a > p + 7 && a < |s| && s[a] == '$' then
        var e := WordRunEnd(s, a + 1);
        if e == a + 1 then None else Some(s[a + 1..e])
      else None
    else None
  }

  function PersistFrom(s: string, p: nat): Option<string>
    requires p <= |s|
    decreases |s| - p
  {
    if PersistAt(s, p).Some? then PersistAt(s, p)
    else if p == |s| then None
    else PersistFrom(s, p + 1)
  }

  function PersistVar(s: string): Option<string> {
    PersistFrom(s, 0)
  }

  // ---------------------------------------------------------------------
  // `\[<word>(\d+)\]` with `re.match` and IGNORECASE, for the words
  // TextureOverrideComponent and CustomShaderTransparency: a numbered header.
  // Nothing is required after the closing bracket.

  function NumberedHeader(s: string, word: string): Option<nat> {
    if |s| > 0 && s[0] == '[' && LiteralCI(s, 1, word) then
      var b := 1 + |word|;
      var d := DigitRunEnd(s, b);
      if d > b && d < |s| && s[d] == ']' then Some(DigitsValue(s[b..d])) else None
    else None
  }

  /** The component number of a `[TextureOverrideComponentN]` line (stripped). */
  function ComponentHeader(s: string): Option<nat> {
    NumberedHeader(s, "textureoverridecomponent")
  }

  /** The index of a `[CustomShaderTransparencyN]` line (stripped). */
  function ShaderHeader(s: string): Option<nat> {
    NumberedHeader(s, "customshadertransparency")
  }

  // ---------------------------------------------------------------------
  // `\[Key(\w+)\]` with `re.match` and IGNORECASE: the variable named by a
  // key-section header, with its spelling as written.

  function KeyHeader(s: string): Option<string> {
    if |s| > 0 && s[0] == '[' && LiteralCI(s, 1, "key") then
      var e := WordRunEnd(s, 4);
      if e > 4 && e < |s| && s[e] == ']' then Some(s[4..e]) else None
    else None
  }

  // ---------------------------------------------------------------------
  // `drawindexed\s*=\s*(\d+)\s*,\s*(\d+)\s*,\s*(\d+)\s*$` with IGNORECASE,
  // anchored at `p` and running to the end of the string: the exact
  // three-parameter draw directive of the transparency tool.

  datatype Params = Params(a: nat, b: nat, c: nat)

  /** `\s*(\d+)` at `p`: the value of the digit run after optional whitespace,
      and the position just past it. */
  function NumberAt(s: string, p: nat): (r: Option<(nat, nat)>)
    requires p <= |s|
    ensures r.Some? ==> p < r.value.1 <= |s|
  {
    var d0 := SpaceRunEnd(s, p);
    var d1 := DigitRunEnd(s, d0);
    if d1 > d0 then Some((DigitsValue(s[d0..d1]), d1)) else None
  }

  /** `\s*,` at `p`: the position just past the comma. */
  function CommaAt(s: string, p: nat): (r: Option<nat>)
    requires p <= |s|
    ensures r.Some? ==> p < r.value <= |s|
  {
    var c := SpaceRunEnd(s, p);
    if c < |s| && s[c] == ',' then Some(c + 1) else None
  }

  /** The pattern at `p`: the keyword, then the rest. */
  function DrawAt(s: string, p: nat): Option<Params>
    requires p <= |s|
  {
    if LiteralCI(s, p, "drawindexed") then DrawRest(s, p + 11) else None
  }

  /** `\s*=` and then the three arguments. */
  function DrawRest(s: string, r: nat): Option<Params>
    requires r <= |s|
  {
    var q := SpaceRunEnd(s, r);
    if q < |s| && s[q] == '=' then
      match NumbersFrom(s, q + 1, 3)
      case None => None
      case Some(vs) => Some(Params(vs[0], vs[1], vs[2]))
    else None
  }

  /** `k` comma-separated numbers from `f` on, each `\s*(\d+)`, the
      separators `\s*,`, and then `\s*$`. */
  function NumbersFrom(s: string, f: nat, k: nat): (r: Option<seq<nat>>)
    requires f <= |s| && k > 0
    ensures r.Some? ==> |r.value| == k
    decreases k
  {
    match NumberAt(s, f)
    case None => None
    case Some((a, e)) =>
      if k == 1 then
        if SpaceRunEnd(s, e) == |s| then Some([a]) else None
      else
        match CommaAt(s, e)
        case None => None
        case Some(f1) =>
          match NumbersFrom(s, f1, k - 1)
          case None => None
          case Some(rest) => Some([a] + rest)
  }

  /** A match starts with the keyword. */
  lemma DrawAtLiteral(s: string, p: nat)
    requires p <= |s| && DrawAt(s, p).Some?
    ensures LiteralCI(s, p, "drawindexed")
  {
  }

  /** `^drawindexed…$` matched against a stripped line (the scan). */
  function DrawExact(s: string): Option<Params> {
    DrawAt(s, 0)
  }

  /** `^(\s*)drawindexed…$` matched against a raw line (the rewrite): the
      indentation group and the parameters. */
  function DrawIndented(s: string): Option<(string, Params)> {
    var w := SpaceRunEnd(s, 0);
    match DrawAt(s, w)
    case Some(ps) => Some((s[..w], ps))
    case None => None
  }
}
