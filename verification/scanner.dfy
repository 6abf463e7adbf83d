/** The brace scanner: given C text and the index of a `{`, find the index of
    its matching `}`, ignoring braces inside string literals, character
    literals, line comments and block comments.

    The scanner is split into a lexical step (`Step`, which says how many
    characters the cursor consumes, which lexical context follows, and how the
    brace depth changes) and the scan itself (`Scan`, which stops at the first
    return to depth 0). The reference meaning is `Deltas`: the depth change
    contributed by every single character, so that the depth after a prefix is
    a prefix sum (`PrefixSum`). */
module Scanner {

  /** The lexical context of the cursor. One constructor per context, so at
      most one context is active at a time; `escape` records a pending
      backslash inside a literal. */
  datatype Lex = Code | LineComment | BlockComment | InString(escape: bool) | InChar(escape: bool)

  /** One move of the cursor: characters consumed, context afterwards, depth change. */
  datatype Move = Move(width: nat, next: Lex, delta: int)

  /** A character whose meaning in context `lex` depends on the character after it. */
  predicate LooksAhead(ch: char, lex: Lex) {
    (lex == Code && ch == '/') || (lex == BlockComment && ch == '*')
  }

  /** The move made at the start of s in context lex. A brace changes the depth
      only when it is met in code; every other character leaves it alone. */
  function Step(s: string, lex: Lex): (m: Move)
    requires |s| > 0
    ensures 1 <= m.width <= 2 && m.width <= |s|
    ensures m.delta == (if lex == Code && s[0] == '{' then 1
                        else if lex == Code && s[0] == '}' then -1
                        else 0)
    ensures m.width == 2 ==> LooksAhead(s[0], lex) && m.next != lex
  {
    var ch := s[0];
    match lex
    case LineComment =>
      Move(1, if ch == '\n' then Code else LineComment, 0)
    case BlockComment =>
      if ch == '*' && |s| >= 2 && s[1] == '/' then Move(2, Code, 0)
      else Move(1, BlockComment, 0)
    case InString(escape) =>
      if escape then Move(1, InString(false), 0)
      else if ch == '\\' then Move(1, InString(true), 0)
      else if ch == '"' then Move(1, Code, 0)
      else Move(1, InString(false), 0)
    case InChar(escape) =>
      if escape then Move(1, InChar(false), 0)
      else if ch == '\\' then Move(1, InChar(true), 0)
      else if ch == '\'' then Move(1, Code, 0)
      else Move(1, InChar(false), 0)
    case Code =>
      if ch == '/' && |s| >= 2 && s[1] == '/' then Move(2, LineComment, 0)
      else if ch == '/' && |s| >= 2 && s[1] == '*' then Move(2, BlockComment, 0)
      else if ch == '"' then Move(1, InString(false), 0)
      else if ch == '\'' then Move(1, InChar(false), 0)
      else if ch == '{' then Move(1, Code, 1)
      else if ch == '}' then Move(1, Code, -1)
      else Move(1, Code, 0)
  }

  /** The scan loop from position i in context lex at brace depth `depth`:
      the index of the `}` that brings the depth back to 0, or -1 when the
      text ends first or a `}` would take the depth below 0. */
  function Scan(c: string, i: nat, lex: Lex, depth: int): (r: int)
    requires i <= |c|
    ensures r == -1 || (i <= r < |c| && c[r] == '}')
    decreases |c| - i
  {
    if i == |c| then -1
    else
      var m := Step(c[i..], lex);
      var d := depth + m.delta;
      if m.delta < 0 && d == 0 then i
      else if m.delta < 0 && d < 0 then -1
      else Scan(c, i + m.width, m.next, d)
  }

  /** The index of the `}` matching the `{` at `open`, or -1. */
  function MatchBrace(c: string, open: int): (r: int)
    ensures !(0 <= open < |c| && c[open] == '{') ==> r == -1
    ensures r == -1 || (open < r < |c| && c[r] == '}')
    ensures r != -1 ==>
              && Depth(c, open, r + 1) == 0
              && forall j :: open < j <= r ==> Depth(c, open, j) >= 1
    ensures 0 <= open < |c| && c[open] == '{' && r == -1 ==>
              forall j :: open < j <= |c| ==> Depth(c, open, j) >= 1
  {
    if open < 0 || open >= |c| || c[open] != '{' then -1
    else
      MatchBraceSpec(c, open);
      Scan(c, open, Code, 0)
  }

  // ---------------------------------------------------------------------
  // Reference meaning: per-character depth changes and their prefix sums.

  function Zeros(n: nat): (z: seq<int>)
    ensures |z| == n && forall k :: 0 <= k < n ==> z[k] == 0
  {
    seq(n, _ => 0)
  }

  function Sum(d: seq<int>): int {
    if |d| == 0 then 0 else d[0] + Sum(d[1..])
  }

  /** The depth change contributed by each character of s, scanned from context lex
      (0 for every character consumed inside a literal or a comment). */
  function Deltas(s: string, lex: Lex): (d: seq<int>)
    ensures |d| == |s|
    decreases |s|
  {
    if |s| == 0 then []
    else
      var m := Step(s, lex);
      [m.delta] + Zeros(m.width - 1) + Deltas(s[m.width..], m.next)
  }

  /** The lexical context after scanning all of s from context lex. */
  function FinalLex(s: string, lex: Lex): Lex
    decreases |s|
  {
    if |s| == 0 then lex
    else
      var m := Step(s, lex);
      FinalLex(s[m.width..], m.next)
  }

  /** Scanning s from lex never needs to look past the end of s. */
  predicate SelfContained(s: string, lex: Lex)
    decreases |s|
  {
    if |s| == 0 then true
    else if |s| == 1 then !LooksAhead(s[0], lex)
    else
      var m := Step(s, lex);
      SelfContained(s[m.width..], m.next)
  }

  /** The depth change over c[i..j] when the scan enters position i in context lex. */
  function PrefixSum(c: string, i: nat, lex: Lex, j: nat): int
    requires i <= j <= |c|
  {
    Sum(Deltas(c[i..], lex)[..j - i])
  }

  /** The unmasked brace depth after c[open..j], counted from the `{` at open. */
  function Depth(c: string, open: nat, j: nat): int
    requires open <= j <= |c|
  {
    PrefixSum(c, open, Code, j)
  }

  lemma {:induction false} SumConcat(a: seq<int>, b: seq<int>)
    ensures Sum(a + b) == Sum(a) + Sum(b)
    decreases |a|
  {
    if |a| == 0 {
      assert a + b == b;
    } else {
      assert (a + b)[1..] == a[1..] + b;
      SumConcat(a[1..], b);
    }
  }

  lemma {:induction false} SumZeros(n: nat)
    ensures Sum(Zeros(n)) == 0
  {
    if n > 0 {
      assert Zeros(n)[1..] == Zeros(n - 1);
      SumZeros(n - 1);
    }
  }

  /** Prefix sums across one move of the cursor: nothing changes inside the
      move, and afterwards the move's delta is added to the rest. */
  lemma {:induction false} PrefixSumStep(c: string, i: nat, lex: Lex, j: nat)
    requires i < |c| && i <= j <= |c|
    ensures var m := Step(c[i..], lex);
            && (j < i + m.width ==> PrefixSum(c, i, lex, j) == 0)
            && (j >= i + m.width ==>
                  PrefixSum(c, i, lex, j) == m.delta + PrefixSum(c, i + m.width, m.next, j))
  {
    var m := Step(c[i..], lex);
    var head := [m.delta] + Zeros(m.width - 1);
    var tail := Deltas(c[i + m.width..], m.next);
    assert c[i..][m.width..] == c[i + m.width..];
    assert Deltas(c[i..], lex) == head + tail;
    if j < i + m.width {
      if j == i {
        assert Deltas(c[i..], lex)[..j - i] == [];
      } else {
        assert Deltas(c[i..], lex)[..j - i] == [m.delta];
        assert Sum([m.delta]) == m.delta + Sum([]);
      }
    } else {
      assert Deltas(c[i..], lex)[..j - i] == head + tail[..j - i - m.width];
      SumConcat(head, tail[..j - i - m.width]);
      SumConcat([m.delta], Zeros(m.width - 1));
      SumZeros(m.width - 1);
      assert Sum([m.delta]) == m.delta + Sum([]);
    }
  }

  /** The depth, entering position i in context lex at `depth`, stays at
      least 1 after every prefix c[i..j] with i <= j <= hi. */
  predicate StaysOpen(c: string, i: nat, lex: Lex, depth: int, hi: nat)
    requires i <= hi <= |c|
  {
    forall j :: i <= j <= hi ==> depth + PrefixSum(c, i, lex, j) >= 1
  }

  /** r is the right answer for a scan from (i, lex, depth), stated through
      prefix sums: an index r when the depth reaches 0 exactly after c[r] and
      stays at least 1 before; -1 when the depth stays at least 1 to the end
      of the text. */
  predicate Accounts(c: string, i: nat, lex: Lex, depth: int, r: int)
    requires i <= |c|
  {
    if r == -1 then StaysOpen(c, i, lex, depth, |c|)
    else i <= r < |c| && depth + PrefixSum(c, i, lex, r + 1) == 0 && StaysOpen(c, i, lex, depth, r)
  }

  /** What the scan from (i, lex, depth) computes. */
  predicate ScanMeaning(c: string, i: nat, lex: Lex, depth: int)
    requires i <= |c|
  {
    Accounts(c, i, lex, depth, Scan(c, i, lex, depth))
  }

  /** A scan that starts at depth 1 or more means what `ScanMeaning` says; in
      particular it never takes the "depth below zero" exit. */
  lemma {:induction false} ScanSpec(c: string, i: nat, lex: Lex, depth: int)
    requires i <= |c| && depth >= 1
    ensures ScanMeaning(c, i, lex, depth)
    decreases |c| - i, 1
  {
    if i == |c| {
      assert PrefixSum(c, i, lex, i) == 0;
    } else if Step(c[i..], lex).delta < 0 && depth + Step(c[i..], lex).delta == 0 {
      ScanStops(c, i, lex, depth);
    } else {
      ScanContinues(c, i, lex, depth);
    }
  }

  lemma {:induction false} ScanStops(c: string, i: nat, lex: Lex, depth: int)
    requires i < |c| && depth >= 1
    requires Step(c[i..], lex).delta < 0 && depth + Step(c[i..], lex).delta == 0
    ensures ScanMeaning(c, i, lex, depth)
  {
    var m := Step(c[i..], lex);
    assert Scan(c, i, lex, depth) == i;
    PrefixSumStep(c, i, lex, i);
    PrefixSumStep(c, i, lex, i + 1);
    assert PrefixSum(c, i + 1, m.next, i + 1) == 0;
  }

  lemma {:induction false} ScanContinues(c: string, i: nat, lex: Lex, depth: int)
    requires i < |c| && depth >= 1
    requires !(Step(c[i..], lex).delta < 0 && depth + Step(c[i..], lex).delta == 0)
    ensures ScanMeaning(c, i, lex, depth)
    decreases |c| - i, 0
  {
    var m := Step(c[i..], lex);
    var d := depth + m.delta;
    ScanSpec(c, i + m.width, m.next, d);
    var r := Scan(c, i + m.width, m.next, d);
    assert Scan(c, i, lex, depth) == r;
    AccountsStep(c, i, lex, depth, r);
  }

  /** An answer that is right after one move of the cursor is right before it. */
  lemma {:induction false} AccountsStep(c: string, i: nat, lex: Lex, depth: int, r: int)
    requires i < |c| && depth >= 1
    requires var m := Step(c[i..], lex);
             Accounts(c, i + m.width, m.next, depth + m.delta, r)
    ensures Accounts(c, i, lex, depth, r)
  {
    var hi := if r == -1 then |c| else r;
    StaysOpenStep(c, i, lex, depth, hi);
    if r != -1 {
      PrefixSumStep(c, i, lex, r + 1);
    }
  }

  /** Staying open across one move: the prefixes inside the move keep the
      starting depth, the later ones are shifted by the move's delta. */
  lemma {:induction false} StaysOpenStep(c: string, i: nat, lex: Lex, depth: int, hi: nat)
    requires i < |c| && depth >= 1
    requires var m := Step(c[i..], lex);
             && i + m.width <= hi <= |c|
             && StaysOpen(c, i + m.width, m.next, depth + m.delta, hi)
    ensures StaysOpen(c, i, lex, depth, hi)
  {
    var m := Step(c[i..], lex);
    forall j | i <= j <= hi
      ensures depth + PrefixSum(c, i, lex, j) >= 1
    {
      PrefixSumStep(c, i, lex, j);
    }
  }

  /** From the `{` at open, the depth after c[open..j] is one more than the
      depth change over c[open + 1..j]. */
  lemma {:induction false} DepthAfterOpen(c: string, open: nat, j: nat)
    requires open < j <= |c| && c[open] == '{'
    ensures Depth(c, open, j) == 1 + PrefixSum(c, open + 1, Code, j)
  {
    assert Step(c[open..], Code) == Move(1, Code, 1);
    PrefixSumStep(c, open, Code, j);
  }

  /** The `{` at open takes the scan from depth 0 to depth 1. */
  lemma {:induction false} ScanPastOpen(c: string, open: nat)
    requires open < |c| && c[open] == '{'
    ensures Scan(c, open, Code, 0) == Scan(c, open + 1, Code, 1)
  {
    assert Step(c[open..], Code) == Move(1, Code, 1);
  }

  lemma {:induction false} MatchBraceSpec(c: string, open: nat)
    requires open < |c| && c[open] == '{'
    ensures Scan(c, open, Code, 0) != -1 ==>
              && open < Scan(c, open, Code, 0)
              && Depth(c, open, Scan(c, open, Code, 0) + 1) == 0
              && forall j :: open < j <= Scan(c, open, Code, 0) ==> Depth(c, open, j) >= 1
    ensures Scan(c, open, Code, 0) == -1 ==>
              forall j :: open < j <= |c| ==> Depth(c, open, j) >= 1
  {
    var r := Scan(c, open, Code, 0);
    ScanPastOpen(c, open);
    ScanSpec(c, open + 1, Code, 1);
    var hi := if r == -1 then |c| else r;
    assert StaysOpen(c, open + 1, Code, 1, hi);
    forall j | open < j <= hi
      ensures Depth(c, open, j) >= 1
    {
      DepthAfterOpen(c, open, j);
    }
    if r != -1 {
      DepthAfterOpen(c, open, r + 1);
    }
  }

  // ---------------------------------------------------------------------
  // Text without literals or comments: the scan is plain depth counting.

  /** No character of s can open a literal or a comment. */
  predicate NoLexemes(s: string) {
    forall k :: 0 <= k < |s| ==> s[k] != '"' && s[k] != '\'' && s[k] != '/'
  }

  /** Plain brace counting from position i at `depth`, with no lexical contexts. */
  function NaiveScan(c: string, i: nat, depth: int): int
    requires i <= |c|
    decreases |c| - i
  {
    if i == |c| then -1
    else if c[i] == '{' then NaiveScan(c, i + 1, depth + 1)
    else if c[i] == '}' then
      if depth - 1 == 0 then i
      else if depth - 1 < 0 then -1
      else NaiveScan(c, i + 1, depth - 1)
    else NaiveScan(c, i + 1, depth)
  }

  /** Plain brace matching: the reference the scanner must agree with on text
      without quotes and slashes. */
  function NaiveMatch(c: string, open: int): int {
    if open < 0 || open >= |c| || c[open] != '{' then -1 else NaiveScan(c, open, 0)
  }

  lemma {:induction false} ScanIsNaive(c: string, i: nat, depth: int)
    requires i <= |c| && NoLexemes(c)
    ensures Scan(c, i, Code, depth) == NaiveScan(c, i, depth)
    decreases |c| - i
  {
    if i < |c| {
      var m := Step(c[i..], Code);
      assert c[i..][0] == c[i];
      assert m.width == 1 && m.next == Code;
      ScanIsNaive(c, i + 1, depth + m.delta);
    }
  }

  /** On text with no quotes and no slashes the scanner finds exactly the brace
      that plain depth counting finds. */
  lemma {:induction false} MatchBraceIsNaive(c: string, open: int)
    requires NoLexemes(c)
    ensures MatchBrace(c, open) == NaiveMatch(c, open)
  {
    if 0 <= open < |c| && c[open] == '{' {
      ScanIsNaive(c, open, 0);
    }
  }

  // ---------------------------------------------------------------------
  // Masking: literals and comments contribute nothing to the depth.

  /** Scanning a then b from lex takes the same moves as scanning a + b: either
      scanning a never looks past its end, or b does not start with a
      character that the look-ahead cares about. */
  predicate Joinable(a: string, b: string, lex: Lex) {
    |b| == 0 || SelfContained(a, lex) || (b[0] != '/' && b[0] != '*')
  }

  lemma {:induction false} StepExtends(a: string, b: string, lex: Lex)
    requires |a| >= 1 && Joinable(a, b, lex)
    ensures Step(a + b, lex) == Step(a, lex)
  {
    assert (a + b)[0] == a[0];
    if |a| >= 2 {
      assert (a + b)[1] == a[1];
    } else if |b| > 0 {
      assert (a + b)[1] == b[0];
    } else {
      assert a + b == a;
    }
  }

  lemma {:induction false} FinalLexConcat(a: string, b: string, lex: Lex)
    requires Joinable(a, b, lex)
    ensures FinalLex(a + b, lex) == FinalLex(b, FinalLex(a, lex))
    decreases |a|
  {
    if |a| == 0 {
      assert a + b == b;
    } else {
      StepExtends(a, b, lex);
      var m := Step(a, lex);
      var a' := a[m.width..];
      assert (a + b)[m.width..] == a' + b;
      assert Joinable(a', b, m.next);
      FinalLexConcat(a', b, m.next);
    }
  }

  /** Scanned whole, the slash and star open a block comment that hides the
      brace. */
  lemma WholeHidesBrace()
    ensures Deltas("/*{", Code)[2] == 0
  {
    assert Step("/*{", Code) == Move(2, BlockComment, 0);
    assert "/*{"[2..] == "{";
    assert Deltas("{", BlockComment) == [0];
  }

  /** Scanned as `/` then `*{`, the brace counts. */
  lemma HalvesCountBrace()
    ensures (Deltas("/", Code) + Deltas("*{", FinalLex("/", Code)))[2] == 1
  {
    assert FinalLex("/", Code) == Code;
    assert Step("*{", Code) == Move(1, Code, 0);
    assert "*{"[1..] == "{";
    assert Deltas("{", Code) == [1];
  }

  /** The join condition of `DeltasConcat` is needed: split between `/` and
      `*{`, the halves scan as a slash and a brace, while the whole text opens
      a block comment that hides the brace. */
  lemma DeltasSplitComment()
    ensures !Joinable("/", "*{", Code)
    ensures Deltas("/" + "*{", Code) != Deltas("/", Code) + Deltas("*{", FinalLex("/", Code))
  {
    assert "/" + "*{" == "/*{";
    WholeHidesBrace();
    HalvesCountBrace();
  }

  lemma {:induction false} DeltasConcat(a: string, b: string, lex: Lex)
    requires Joinable(a, b, lex)
    ensures Deltas(a + b, lex) == Deltas(a, lex) + Deltas(b, FinalLex(a, lex))
    decreases |a|
  {
    if |a| == 0 {
      assert a + b == b;
    } else {
      var m := Step(a, lex);
      DeltasUnfoldJoin(a, b, lex);
      DeltasConcat(a[m.width..], b, m.next);
      DeltasRegroup(a, b, lex);
    }
  }

  /** One move into a + b is the same move as into a, and it leaves a' + b
      where a' is what remains of a. */
  lemma {:induction false} DeltasUnfoldJoin(a: string, b: string, lex: Lex)
    requires |a| > 0 && Joinable(a, b, lex)
    ensures var m := Step(a, lex);
            && Joinable(a[m.width..], b, m.next)
            && Deltas(a + b, lex) == [m.delta] + Zeros(m.width - 1) + Deltas(a[m.width..] + b, m.next)
  {
    StepExtends(a, b, lex);
    var m := Step(a, lex);
    assert (a + b)[m.width..] == a[m.width..] + b;
  }

  lemma {:induction false} DeltasRegroup(a: string, b: string, lex: Lex)
    requires |a| > 0
    requires var m := Step(a, lex);
             var a' := a[m.width..];
             Deltas(a + b, lex) == [m.delta] + Zeros(m.width - 1)
                                   + (Deltas(a', m.next) + Deltas(b, FinalLex(a', m.next)))
    ensures Deltas(a + b, lex) == Deltas(a, lex) + Deltas(b, FinalLex(a, lex))
  {
    var m := Step(a, lex);
    var a' := a[m.width..];
    Regroup(Deltas(a + b, lex), [m.delta] + Zeros(m.width - 1), Deltas(a', m.next), Deltas(b, FinalLex(a', m.next)));
  }

  /** Reassociating a concatenation, kept apart so that the solver does not
      reassociate everything else in sight. */
  lemma {:induction false} Regroup<T>(x: seq<T>, h: seq<T>, p: seq<T>, q: seq<T>)
    requires x == h + (p + q)
    ensures x == (h + p) + q
  {
  }

  lemma {:induction false} SelfContainedConcat(a: string, b: string, lex: Lex)
    requires |b| > 0 && Joinable(a, b, lex) && SelfContained(b, FinalLex(a, lex))
    ensures SelfContained(a + b, lex)
    decreases |a|
  {
    if |a| == 0 {
      assert a + b == b;
    } else {
      StepExtends(a, b, lex);
      var m := Step(a, lex);
      var a' := a[m.width..];
      assert (a + b)[m.width..] == a' + b;
      assert Joinable(a', b, m.next);
      SelfContainedConcat(a', b, m.next);
    }
  }

  /** Scanning s from context lex changes no depth, ends in code and never
      looks past the end of s. */
  predicate Quiet(s: string, lex: Lex) {
    && Deltas(s, lex) == Zeros(|s|)
    && FinalLex(s, lex) == Code
    && SelfContained(s, lex)
  }

  /** s is quiet from code: it can be dropped into code anywhere without
      changing which brace matches which. */
  predicate Inert(s: string) {
    Quiet(s, Code)
  }

  lemma {:induction false} ZerosConcat(m: nat, n: nat)
    ensures Zeros(m) + Zeros(n) == Zeros(m + n)
  {
  }

  /** A move that changes no depth, followed by quiet text, is quiet. */
  lemma {:induction false} QuietStep(t: string, lex: Lex)
    requires |t| > 0 && Step(t, lex).delta == 0
    requires |t| == 1 ==> !LooksAhead(t[0], lex)
    requires Quiet(t[Step(t, lex).width..], Step(t, lex).next)
    ensures Quiet(t, lex)
  {
    var m := Step(t, lex);
    assert [m.delta] + Zeros(m.width - 1) == Zeros(m.width);
    ZerosConcat(m.width, |t| - m.width);
  }

  lemma {:induction false} InertConcat(a: string, b: string)
    requires Inert(a) && Inert(b)
    ensures Inert(a + b)
  {
    DeltasConcat(a, b, Code);
    FinalLexConcat(a, b, Code);
    ZerosConcat(|a|, |b|);
    if |b| > 0 {
      SelfContainedConcat(a, b, Code);
    } else {
      assert a + b == a;
    }
  }

  /** Text with no quotes, slashes or braces is inert. */
  lemma {:induction false} PlainInert(s: string)
    requires NoLexemes(s)
    requires forall k :: 0 <= k < |s| ==> s[k] != '{' && s[k] != '}'
    ensures Inert(s)
    decreases |s|
  {
    if |s| > 0 {
      assert Step(s, Code) == Move(1, Code, 0);
      PlainInert(s[1..]);
      QuietStep(s, Code);
    }
  }

  /** The body of a literal quoted by q: characters other than q and the
      backslash, and backslash escapes of any character. */
  predicate LiteralBody(s: string, q: char)
    decreases |s|
  {
    if |s| == 0 then true
    else if s[0] == '\\' then |s| >= 2 && LiteralBody(s[2..], q)
    else s[0] != q && LiteralBody(s[1..], q)
  }

  /** The context just inside a literal opened by q, with or without a pending escape. */
  function InLiteral(q: char, escape: bool): Lex {
    if q == '"' then InString(escape) else InChar(escape)
  }

  /** Inside a literal, a backslash and the character after it are consumed
      one move each, the first setting the escape and the second clearing it. */
  lemma {:induction false} LiteralEscape(t: string, q: char)
    requires q == '"' || q == '\''
    requires |t| >= 3 && t[0] == '\\'
    requires Quiet(t[2..], InLiteral(q, false))
    ensures Quiet(t, InLiteral(q, false))
  {
    var t1 := t[1..];
    assert t1[1..] == t[2..];
    assert Step(t1, InLiteral(q, true)) == Move(1, InLiteral(q, false), 0);
    QuietStep(t1, InLiteral(q, true));
    assert Step(t, InLiteral(q, false)) == Move(1, InLiteral(q, true), 0);
    QuietStep(t, InLiteral(q, false));
  }

  /** The rest of a literal, up to and including its closing quote, is quiet. */
  lemma {:induction false} LiteralRest(s: string, q: char)
    requires q == '"' || q == '\''
    requires LiteralBody(s, q)
    ensures Quiet(s + [q], InLiteral(q, false))
    decreases |s|
  {
    var t := s + [q];
    if |s| == 0 {
      assert Step(t, InLiteral(q, false)) == Move(1, Code, 0);
      assert t[1..] == [];
      QuietStep(t, InLiteral(q, false));
    } else if s[0] == '\\' {
      assert t[2..] == s[2..] + [q];
      LiteralRest(s[2..], q);
      LiteralEscape(t, q);
    } else {
      assert t[1..] == s[1..] + [q];
      LiteralRest(s[1..], q);
      assert Step(t, InLiteral(q, false)) == Move(1, InLiteral(q, false), 0);
      QuietStep(t, InLiteral(q, false));
    }
  }

  /** A string or character literal is inert, whatever braces it holds. */
  lemma {:induction false} LiteralInert(q: char, s: string)
    requires q == '"' || q == '\''
    requires LiteralBody(s, q)
    ensures Inert([q] + s + [q])
  {
    var lit := [q] + s + [q];
    assert lit[1..] == s + [q];
    LiteralRest(s, q);
    assert Step(lit, Code) == Move(1, InLiteral(q, false), 0);
    QuietStep(lit, Code);
  }

  /** The rest of a line comment, up to and including its newline, is quiet. */
  lemma {:induction false} LineCommentRest(s: string)
    requires forall k :: 0 <= k < |s| ==> s[k] != '\n'
    ensures Quiet(s + "\n", LineComment)
    decreases |s|
  {
    var t := s + "\n";
    if |s| == 0 {
      assert Step(t, LineComment) == Move(1, Code, 0);
      assert t[1..] == [];
    } else {
      assert t[1..] == s[1..] + "\n";
      LineCommentRest(s[1..]);
      assert Step(t, LineComment) == Move(1, LineComment, 0);
    }
    QuietStep(t, LineComment);
  }

  /** A line comment, up to and including its newline, is inert. */
  lemma {:induction false} LineCommentInert(s: string)
    requires forall k :: 0 <= k < |s| ==> s[k] != '\n'
    ensures Inert("//" + s + "\n")
  {
    var cm := "//" + s + "\n";
    assert cm[2..] == s + "\n";
    LineCommentRest(s);
    assert Step(cm, Code) == Move(2, LineComment, 0);
    QuietStep(cm, Code);
  }

  /** s holds no `*` immediately followed by `/`. */
  predicate NoCommentEnd(s: string) {
    forall k :: 0 <= k < |s| - 1 ==> !(s[k] == '*' && s[k + 1] == '/')
  }

  /** The rest of a block comment, up to and including its `*` `/`, is quiet. */
  lemma {:induction false} BlockCommentRest(s: string)
    requires NoCommentEnd(s)
    ensures Quiet(s + "*/", BlockComment)
    decreases |s|
  {
    var t := s + "*/";
    if |s| == 0 {
      assert Step(t, BlockComment) == Move(2, Code, 0);
      assert t[2..] == [];
    } else {
      assert t[1..] == s[1..] + "*/";
      BlockCommentRest(s[1..]);
      assert t[0] == s[0];
      assert t[1] == if |s| >= 2 then s[1] else '*';
      assert Step(t, BlockComment) == Move(1, BlockComment, 0);
    }
    QuietStep(t, BlockComment);
  }

  /** A block comment is inert, whatever braces it holds. */
  lemma {:induction false} BlockCommentInert(s: string)
    requires NoCommentEnd(s)
    ensures Inert("/*" + s + "*/")
  {
    var cm := "/*" + s + "*/";
    assert cm[2..] == s + "*/";
    BlockCommentRest(s);
    assert Step(cm, Code) == Move(2, BlockComment, 0);
    QuietStep(cm, Code);
  }

  // ---------------------------------------------------------------------
  // Balanced text between a brace pair.

  /** s, scanned from code, ends in code, has net depth change 0 and never
      closes more braces than it has opened. */
  predicate Balanced(s: string) {
    && FinalLex(s, Code) == Code
    && Sum(Deltas(s, Code)) == 0
    && forall k :: 0 <= k <= |s| ==> Sum(Deltas(s, Code)[..k]) >= 0
  }

  lemma {:induction false} InertBalanced(s: string)
    requires Inert(s)
    ensures Balanced(s)
  {
    SumZeros(|s|);
    forall k | 0 <= k <= |s|
      ensures Sum(Deltas(s, Code)[..k]) >= 0
    {
      assert Deltas(s, Code)[..k] == Zeros(k);
      SumZeros(k);
    }
  }

  lemma {:induction false} CloseDeltas(t: string)
    requires |t| > 0 && t[0] == '}'
    ensures Deltas(t, Code) == [-1] + Deltas(t[1..], Code)
  {
    assert Step(t, Code) == Move(1, Code, -1);
  }

  /** Sums of prefixes of a concatenation. */
  lemma {:induction false} SumPrefixConcat(x: seq<int>, y: seq<int>, n: nat)
    requires n <= |x| + |y|
    ensures n <= |x| ==> Sum((x + y)[..n]) == Sum(x[..n])
    ensures n >= |x| ==> Sum((x + y)[..n]) == Sum(x) + Sum(y[..n - |x|])
  {
    if n <= |x| {
      assert (x + y)[..n] == x[..n];
    } else {
      assert (x + y)[..n] == x + y[..n - |x|];
      SumConcat(x, y[..n - |x|]);
    }
  }

  /** The scanner's answer is the `}` at k exactly when the depth first
      returns to 0 just after k. */
  lemma {:induction false} MatchBraceAt(c: string, open: nat, k: nat)
    requires open < k < |c| && c[open] == '{'
    requires Depth(c, open, k + 1) == 0
    requires forall j :: open < j <= k ==> Depth(c, open, j) >= 1
    ensures MatchBrace(c, open) == k
  {
  }

  /** The scanner answers -1 exactly when the depth never returns to 0. */
  lemma {:induction false} MatchBraceNone(c: string, open: nat)
    requires open < |c| && c[open] == '{'
    requires forall j :: open < j <= |c| ==> Depth(c, open, j) >= 1
    ensures MatchBrace(c, open) == -1
  {
  }

  /** The brace matched to a `{` that is followed by balanced text and a `}`
      is that `}`, whatever the balanced text holds in literals or comments
      and whatever follows. */
  lemma {:induction false} MatchBraceWraps(pre: string, body: string, rest: string)
    requires Balanced(body)
    ensures MatchBrace(pre + "{" + body + "}" + rest, |pre|) == |pre| + |body| + 1
  {
    var c := pre + "{" + body + "}" + rest;
    var o := |pre|;
    var k := o + |body| + 1;
    var tail := "}" + rest;
    assert c[o] == '{';
    assert c[o + 1..] == body + tail;
    DeltasConcat(body, tail, Code);
    CloseDeltas(tail);
    assert tail[1..] == rest;
    var x := Deltas(body, Code);
    var y := Deltas(tail, Code);
    forall j | o < j <= k
      ensures Depth(c, o, j) >= 1
    {
      DepthAfterOpen(c, o, j);
      SumPrefixConcat(x, y, j - o - 1);
    }
    DepthAfterOpen(c, o, k + 1);
    SumPrefixConcat(x, y, |x| + 1);
    assert y[..1] == [-1];
    assert Sum([-1]) == -1;
    MatchBraceAt(c, o, k);
  }

  /** A `{` followed only by balanced text is left unmatched. */
  lemma {:induction false} UnclosedBrace(pre: string, body: string)
    requires Balanced(body)
    ensures MatchBrace(pre + "{" + body, |pre|) == -1
  {
    var c := pre + "{" + body;
    var o := |pre|;
    assert c[o] == '{';
    assert c[o + 1..] == body;
    forall j | o < j <= |c|
      ensures Depth(c, o, j) >= 1
    {
      DepthAfterOpen(c, o, j);
    }
    MatchBraceNone(c, o);
  }

  predicate NoBraces(s: string) {
    forall k :: 0 <= k < |s| ==> s[k] != '{' && s[k] != '}'
  }

  /** Braces in a string literal and in a block comment are skipped: between a
      `{` and a `}`, a body made of a literal "s", plain code u, a comment
      /*t*/ and plain code v leaves that `{` matched to that `}`. */
  lemma {:induction false} MaskedBracesSkipped(pre: string, s: string, u: string, t: string, v: string, rest: string)
    requires LiteralBody(s, '"') && NoCommentEnd(t)
    requires NoLexemes(u) && NoBraces(u) && NoLexemes(v) && NoBraces(v)
    ensures var body := "\"" + s + "\"" + u + "/*" + t + "*/" + v;
            MatchBrace(pre + "{" + body + "}" + rest, |pre|) == |pre| + |body| + 1
  {
    var lit := ['"'] + s + ['"'];
    var comment := "/*" + t + "*/";
    LiteralInert('"', s);
    PlainInert(u);
    BlockCommentInert(t);
    PlainInert(v);
    InertConcat(lit, u);
    InertConcat(lit + u, comment);
    InertConcat(lit + u + comment, v);
    var body := lit + u + comment + v;
    assert body == "\"" + s + "\"" + u + "/*" + t + "*/" + v;
    InertBalanced(body);
    MatchBraceWraps(pre, body, rest);
  }

  /** The example of a brace in a string literal and a brace in a block
      comment, between one real pair: `{"{"; int x = 1; /* { */ return x;}`
      has its first brace matched to its last character. */
  lemma {:induction false} MaskedBracesExample()
    ensures var body := "\"" + "{" + "\"" + "; int x = 1; " + "/*" + " { " + "*/" + " return x;";
            MatchBrace("{" + body + "}", 0) == |body| + 1
  {
    assert LiteralBody("{", '"') && NoCommentEnd(" { ");
    assert NoLexemes("; int x = 1; ") && NoBraces("; int x = 1; ");
    assert NoLexemes(" return x;") && NoBraces(" return x;");
    MaskedBracesSkipped("", "{", "; int x = 1; ", " { ", " return x;", "");
    var body := "\"" + "{" + "\"" + "; int x = 1; " + "/*" + " { " + "*/" + " return x;";
    assert "" + "{" + body + "}" + "" == "{" + body + "}";
  }
}
