/** The fixed regular-expression shapes the patcher searches for, written as
    sequences of pieces, with a greedy matcher (`MatchAt`), the leftmost search
    (`Search`, Python's `re.search`) and single substitution (`SubFirst`,
    Python's `re.subn(..., count=1)`).

    `Lang` is the declarative meaning of a pattern, the one a backtracking
    regular-expression engine implements: some way of splitting the text
    fits the pieces. For the shapes used here (`Deterministic`) the greedy
    matcher finds exactly that split, so the model's matches are the
    regular expression's matches. */
module Pattern {
  import opened Text

  datatype Piece =
    | Lit(word: string)                  // the word itself
    | Alt(first: string, second: string) // (?:first|second)
    | Spaces(atLeastOne: bool)           // \s+ or \s*
    | Upto(stop: char)                   // [^stop]*
    | Boundary                           // \b

  type Pattern = seq<Piece>

  /** Greedy matching of pat at position p: the end of the match, if any. */
  function MatchAt(c: string, p: nat, pat: Pattern): (r: Option<nat>)
    requires p <= |c|
    ensures r.Some? ==> p <= r.value <= |c|
    decreases |pat|
  {
    if |pat| == 0 then Some(p)
    else
      var rest := pat[1..];
      match pat[0]
      case Lit(w) =>
        if OccursAt(c, p, w) then MatchAt(c, p + |w|, rest) else None
      case Alt(a, b) =>
        if OccursAt(c, p, a) then MatchAt(c, p + |a|, rest)
        else if OccursAt(c, p, b) then MatchAt(c, p + |b|, rest)
        else None
      case Spaces(atLeastOne) =>
        var q := SkipSpace(c, p);
        if atLeastOne && q == p then None else MatchAt(c, q, rest)
      case Upto(stop) =>
        MatchAt(c, SkipUntil(c, p, stop), rest)
      case Boundary =>
        if WordBoundary(c, p) then MatchAt(c, p, rest) else None
  }

  /** c[p..e] is in the language of pat. */
  ghost predicate Lang(c: string, p: nat, pat: Pattern, e: nat)
    decreases |pat|
  {
    && p <= e <= |c|
    && if |pat| == 0 then e == p
       else
         var rest := pat[1..];
         match pat[0]
         case Lit(w) =>
           OccursAt(c, p, w) && Lang(c, p + |w|, rest, e)
         case Alt(a, b) =>
           || (OccursAt(c, p, a) && Lang(c, p + |a|, rest, e))
           || (OccursAt(c, p, b) && Lang(c, p + |b|, rest, e))
         case Spaces(atLeastOne) =>
           exists q :: p <= q <= e && (atLeastOne ==> p < q) && AllSpace(c, p, q) && Lang(c, q, rest, e)
         case Upto(stop) =>
           exists q :: p <= q <= e && Avoids(c, p, q, stop) && Lang(c, q, rest, e)
         case Boundary =>
           WordBoundary(c, p) && Lang(c, p, rest, e)
  }

  /** A piece that can only begin with a non-space character. */
  predicate Solid(x: Piece) {
    match x
    case Lit(w) => |w| > 0 && !IsSpace(w[0])
    case Alt(a, b) => |a| > 0 && |b| > 0 && !IsSpace(a[0]) && !IsSpace(b[0])
    case _ => false
  }

  /** Shapes where a greedy left-to-right match never has to backtrack: every
      run of spaces is followed by a piece that starts with a non-space, every
      `[^x]*` by a literal starting with x, and the two words of an
      alternative start differently. */
  predicate Deterministic(pat: Pattern)
    decreases |pat|
  {
    |pat| == 0 || (Fits(pat[0], pat[1..]) && Deterministic(pat[1..]))
  }

  /** Piece x needs no backtracking when followed by rest. */
  predicate Fits(x: Piece, rest: Pattern) {
    match x
    case Spaces(_) => |rest| >= 1 && Solid(rest[0])
    case Upto(stop) => |rest| >= 1 && rest[0].Lit? && |rest[0].word| > 0 && rest[0].word[0] == stop
    case Alt(a, b) => |a| > 0 && |b| > 0 && a[0] != b[0]
    case _ => true
  }

  /** Building a deterministic shape one piece at a time. */
  lemma {:induction false} ConsDeterministic(x: Piece, rest: Pattern)
    requires Fits(x, rest) && Deterministic(rest)
    ensures Deterministic([x] + rest)
  {
    assert ([x] + rest)[1..] == rest;
  }

  /** Every greedy match is a match of the regular expression. */
  lemma {:induction false} MatchSound(c: string, p: nat, pat: Pattern)
    requires p <= |c| && MatchAt(c, p, pat).Some?
    ensures Lang(c, p, pat, MatchAt(c, p, pat).value)
    decreases |pat|
  {
    if |pat| > 0 {
      var e := MatchAt(c, p, pat).value;
      var rest := pat[1..];
      match pat[0]
      case Lit(w) =>
        MatchSound(c, p + |w|, rest);
      case Alt(a, b) =>
        if OccursAt(c, p, a) {
          MatchSound(c, p + |a|, rest);
        } else {
          MatchSound(c, p + |b|, rest);
        }
      case Spaces(atLeastOne) =>
        var q := SkipSpace(c, p);
        MatchSound(c, q, rest);
      case Upto(stop) =>
        var q := SkipUntil(c, p, stop);
        MatchSound(c, q, rest);
      case Boundary =>
        MatchSound(c, p, rest);
    }
  }

  /** A match of a pattern whose first piece is solid starts on a non-space. */
  lemma {:induction false} SolidStart(c: string, q: nat, pat: Pattern, e: nat)
    requires |pat| > 0 && Solid(pat[0]) && Lang(c, q, pat, e)
    ensures q < |c| && !IsSpace(c[q])
  {
    match pat[0]
    case Lit(w) =>
      assert c[q..q + |w|][0] == c[q];
    case Alt(a, b) =>
      if OccursAt(c, q, a) {
        assert c[q..q + |a|][0] == c[q];
      } else {
        assert c[q..q + |b|][0] == c[q];
      }
  }

  /** A run of spaces followed by a solid piece ends where greedy skipping ends. */
  lemma {:induction false} SpacesEnd(c: string, p: nat, q: nat, rest: Pattern, e: nat)
    requires p <= q <= |c| && AllSpace(c, p, q)
    requires |rest| > 0 && Solid(rest[0]) && Lang(c, q, rest, e)
    ensures SkipSpace(c, p) == q
  {
    SolidStart(c, q, rest, e);
  }

  /** A run of non-stop characters followed by a literal starting with stop
      ends where greedy skipping ends. */
  lemma {:induction false} UptoEnd(c: string, p: nat, q: nat, stop: char, rest: Pattern, e: nat)
    requires p <= q <= |c| && Avoids(c, p, q, stop)
    requires |rest| > 0 && rest[0].Lit? && |rest[0].word| > 0 && rest[0].word[0] == stop
    requires Lang(c, q, rest, e)
    ensures SkipUntil(c, p, stop) == q
  {
    var w := rest[0].word;
    assert c[q..q + |w|][0] == c[q];
  }

  /** Two words that start differently never both occur at one position. */
  lemma {:induction false} AltExclusive(c: string, p: nat, a: string, b: string)
    requires |a| > 0 && |b| > 0 && a[0] != b[0]
    ensures OccursAt(c, p, a) ==> !OccursAt(c, p, b)
  {
    if OccursAt(c, p, a) {
      assert c[p..p + |a|][0] == c[p];
      if p + |b| <= |c| {
        assert c[p..p + |b|][0] == c[p];
      }
    }
  }

  /** For deterministic shapes the greedy matcher finds every match of the
      regular expression. */
  lemma {:induction false} MatchComplete(c: string, p: nat, pat: Pattern, e: nat)
    requires p <= |c| && Deterministic(pat) && Lang(c, p, pat, e)
    ensures MatchAt(c, p, pat) == Some(e)
    decreases |pat|
  {
    if |pat| > 0 {
      var q := FirstPieceFits(c, p, pat, e);
      MatchComplete(c, q, pat[1..], e);
      NextStep(c, p, pat);
    }
  }

  /** In a match of a deterministic shape, the first piece covers exactly
      what greedy matching of that piece covers. */
  lemma {:induction false} FirstPieceFits(c: string, p: nat, pat: Pattern, e: nat) returns (q: nat)
    requires p <= |c| && |pat| > 0 && Fits(pat[0], pat[1..]) && Lang(c, p, pat, e)
    ensures q <= |c| && Next(c, p, pat[0]) == Some(q)
    ensures Lang(c, q, pat[1..], e)
  {
    var rest := pat[1..];
    match pat[0]
    case Lit(w) =>
      q := p + |w|;
    case Alt(a, b) =>
      AltExclusive(c, p, a, b);
      q := if OccursAt(c, p, a) then p + |a| else p + |b|;
    case Spaces(atLeastOne) =>
      q :| p <= q <= e && (atLeastOne ==> p < q) && AllSpace(c, p, q) && Lang(c, q, rest, e);
      SpacesEnd(c, p, q, rest, e);
    case Upto(stop) =>
      q :| p <= q <= e && Avoids(c, p, q, stop) && Lang(c, q, rest, e);
      UptoEnd(c, p, q, stop, rest, e);
    case Boundary =>
      q := p;
  }

  /** For deterministic shapes, the greedy matcher and the regular expression
      agree on every position and every end. */
  lemma {:induction false} MatchIsLang(c: string, p: nat, pat: Pattern, e: nat)
    requires p <= |c| && Deterministic(pat)
    ensures MatchAt(c, p, pat) == Some(e) <==> Lang(c, p, pat, e)
  {
    if MatchAt(c, p, pat) == Some(e) {
      MatchSound(c, p, pat);
    }
    if Lang(c, p, pat, e) {
      MatchComplete(c, p, pat, e);
    }
  }

  /** A match of a pattern that ends with a literal ends with that literal. */
  lemma {:induction false} MatchEndsWith(c: string, p: nat, pat: Pattern, w: string)
    requires p <= |c| && |pat| > 0 && pat[|pat| - 1] == Lit(w) && MatchAt(c, p, pat).Some?
    ensures p + |w| <= MatchAt(c, p, pat).value
    ensures OccursAt(c, MatchAt(c, p, pat).value - |w|, w)
    decreases |pat|
  {
    var rest := pat[1..];
    if |pat| == 1 {
      assert pat[0] == Lit(w) && rest == [];
      assert OccursAt(c, p, w);
    } else {
      assert rest[|rest| - 1] == Lit(w);
      NextStep(c, p, pat);
      MatchEndsWith(c, Next(c, p, pat[0]).value, rest, w);
    }
  }

  /** A match of a pattern holding the literal w holds an occurrence of w. */
  lemma {:induction false} MatchHasLit(c: string, p: nat, pat: Pattern, i: nat, w: string)
    requires p <= |c| && i < |pat| && pat[i] == Lit(w) && MatchAt(c, p, pat).Some?
    ensures exists q :: p <= q && q + |w| <= MatchAt(c, p, pat).value && OccursAt(c, q, w)
    decreases |pat|
  {
    NextStep(c, p, pat);
    var q := Next(c, p, pat[0]).value;
    if i == 0 {
      assert OccursAt(c, p, w);
      MatchStaysAfter(c, q, pat[1..]);
    } else {
      assert pat[1..][i - 1] == Lit(w);
      MatchHasLit(c, q, pat[1..], i - 1, w);
    }
  }

  /** A match never ends before it starts. */
  lemma {:induction false} MatchStaysAfter(c: string, p: nat, pat: Pattern)
    requires p <= |c| && MatchAt(c, p, pat).Some?
    ensures p <= MatchAt(c, p, pat).value
  {
  }

  /** Where the rest of the pattern continues after the first piece x matched
      at p, if it matched. */
  function Next(c: string, p: nat, x: Piece): (r: Option<nat>)
    requires p <= |c|
    ensures r.Some? ==> p <= r.value <= |c|
  {
    match x
    case Lit(w) => if OccursAt(c, p, w) then Some(p + |w|) else None
    case Alt(a, b) =>
      if OccursAt(c, p, a) then Some(p + |a|)
      else if OccursAt(c, p, b) then Some(p + |b|)
      else None
    case Spaces(atLeastOne) =>
      var q := SkipSpace(c, p);
      if atLeastOne && q == p then None else Some(q)
    case Upto(stop) => Some(SkipUntil(c, p, stop))
    case Boundary => if WordBoundary(c, p) then Some(p) else None
  }

  /** Matching a pattern is matching its first piece, then the rest. */
  lemma {:induction false} NextStep(c: string, p: nat, pat: Pattern)
    requires p <= |c| && |pat| > 0
    ensures MatchAt(c, p, pat) == if Next(c, p, pat[0]).None? then None
                                  else MatchAt(c, Next(c, p, pat[0]).value, pat[1..])
  {
    match pat[0]
    case Lit(_) =>
    case Alt(_, _) =>
    case Spaces(_) =>
    case Upto(_) =>
    case Boundary =>
  }

  /** The match at p is the leftmost match at or after `from`. */
  predicate Leftmost(c: string, pat: Pattern, from: nat, p: nat, e: nat)
    requires from <= p <= |c|
  {
    && MatchAt(c, p, pat) == Some(e)
    && forall q :: from <= q < p ==> MatchAt(c, q, pat).None?
  }

  /** No match starts at or after `from`. */
  predicate NoMatch(c: string, pat: Pattern, from: nat)
    requires from <= |c|
  {
    forall q :: from <= q <= |c| ==> MatchAt(c, q, pat).None?
  }

  /** Python's `re.search` from position `from`: the start and end of the
      leftmost match. */
  function Search(c: string, pat: Pattern, from: nat): (r: Option<(nat, nat)>)
    requires from <= |c|
    ensures r.Some? ==> from <= r.value.0 <= |c| && Leftmost(c, pat, from, r.value.0, r.value.1)
    ensures r.None? <==> NoMatch(c, pat, from)
    decreases |c| - from
  {
    match MatchAt(c, from, pat)
    case Some(e) => Some((from, e))
    case None => if from == |c| then None else Search(c, pat, from + 1)
  }

  /** Python's `re.subn(pattern, repl, s, count=1)` with a replacement that
      holds no backslash: the leftmost match replaced by repl, and the number
      of replacements. */
  function SubFirst(s: string, pat: Pattern, repl: string): (r: (string, nat))
    ensures r.1 == 0 <==> NoMatch(s, pat, 0)
    ensures r.1 == 0 ==> r.0 == s
    ensures r.1 != 0 ==>
              && r.1 == 1
              && exists p, e :: 0 <= p <= e <= |s| && Leftmost(s, pat, 0, p, e) && r.0 == s[..p] + repl + s[e..]
  {
    match Search(s, pat, 0)
    case None => (s, 0)
    case Some((p, e)) => (s[..p] + repl + s[e..], 1)
  }
}
