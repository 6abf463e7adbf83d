/** The tap-dance patch (`_replace_fn24_in_space_tap_dance`): in the first
    `dance_<n>_finished` function (n = 0 .. 23) whose body mentions `KC_F24`
    and holds a DOUBLE_TAP clause sending `KC_F24`, that clause becomes
    "num-pad dot, then hold space"; the matching clause of `dance_<n>_reset`,
    if there is one, becomes "release space". */
module TapDance {
  import opened Text
  import opened Pattern
  import opened FunctionBody

  /** The comment tag written into every rewritten clause. */
  const PatchMarker := "ORYX_FN24_NUMDOT_SPACE_PATCH"

  /** The ordinals tried are 0 .. Ordinals - 1. */
  const Ordinals: nat := 24

  /** The key the generated clause sends on a double tap. */
  const Target := "KC_F24"

  function FinishedName(n: nat): string {
    "dance_" + Decimal(n) + "_finished"
  }

  function ResetName(n: nat): string {
    "dance_" + Decimal(n) + "_reset"
  }

  /** `case\s+DOUBLE_TAP\s*:\s*(?:PRESS|tap_code16)\s*\(\s*KC_F24\s*\)\s*;\s*break\s*;`,
      in three parts: up to the colon, the call, and the closing `; break;`. */
  function Clause(press: string): Pattern {
    ClauseOpening() + ClauseCall(press) + ClauseClosing()
  }

  function ClauseOpening(): Pattern {
    [Lit("case"), Spaces(true), Lit("DOUBLE_TAP"), Spaces(false), Lit(":"), Spaces(false)]
  }

  function ClauseCall(press: string): Pattern {
    [Alt(press, "tap_code16"), Spaces(false), Lit("("), Spaces(false), Lit(Target), Spaces(false), Lit(")")]
  }

  function ClauseClosing(): Pattern {
    [Spaces(false), Lit(";"), Spaces(false), Lit("break"), Spaces(false), Lit(";")]
  }

  /** The clause of a `finished` function: press or tap KC_F24, then break. */
  function FinishedClause(): Pattern {
    Clause("register_code16")
  }

  /** The clause of a `reset` function: release or tap KC_F24, then break. */
  function ResetClause(): Pattern {
    Clause("unregister_code16")
  }

  const FinishedReplacement :=
    "case DOUBLE_TAP: tap_code16(KC_KP_DOT); register_code16(KC_SPACE); break; /* " + PatchMarker + " */"

  const ResetReplacement :=
    "case DOUBLE_TAP: unregister_code16(KC_SPACE); break; /* " + PatchMarker + " */"

  lemma {:induction false} ClosingDeterministic()
    ensures Deterministic(ClauseClosing())
  {
    var s0: Pattern := [];
    ConsDeterministic(Lit(";"), s0);
    var s1 := [Lit(";")] + s0;
    ConsDeterministic(Spaces(false), s1);
    var s2 := [Spaces(false)] + s1;
    ConsDeterministic(Lit("break"), s2);
    var s3 := [Lit("break")] + s2;
    ConsDeterministic(Spaces(false), s3);
    var s4 := [Spaces(false)] + s3;
    ConsDeterministic(Lit(";"), s4);
    var s5 := [Lit(";")] + s4;
    ConsDeterministic(Spaces(false), s5);
    assert [Spaces(false)] + s5 == ClauseClosing();
  }

  lemma {:induction false} CallDeterministic(press: string, rest: Pattern)
    requires |press| > 0 && press[0] != 't' && Deterministic(rest)
    ensures Deterministic(ClauseCall(press) + rest)
  {
    ConsDeterministic(Lit(")"), rest);
    var s1 := [Lit(")")] + rest;
    ConsDeterministic(Spaces(false), s1);
    var s2 := [Spaces(false)] + s1;
    ConsDeterministic(Lit(Target), s2);
    var s3 := [Lit(Target)] + s2;
    ConsDeterministic(Spaces(false), s3);
    var s4 := [Spaces(false)] + s3;
    ConsDeterministic(Lit("("), s4);
    var s5 := [Lit("(")] + s4;
    ConsDeterministic(Spaces(false), s5);
    var s6 := [Spaces(false)] + s5;
    ConsDeterministic(Alt(press, "tap_code16"), s6);
    assert [Alt(press, "tap_code16")] + s6 == ClauseCall(press) + rest;
  }

  lemma {:induction false} OpeningDeterministic(rest: Pattern)
    requires Deterministic(rest) && |rest| > 0 && Solid(rest[0])
    ensures Deterministic(ClauseOpening() + rest)
  {
    ConsDeterministic(Spaces(false), rest);
    var s1 := [Spaces(false)] + rest;
    ConsDeterministic(Lit(":"), s1);
    var s2 := [Lit(":")] + s1;
    ConsDeterministic(Spaces(false), s2);
    var s3 := [Spaces(false)] + s2;
    ConsDeterministic(Lit("DOUBLE_TAP"), s3);
    var s4 := [Lit("DOUBLE_TAP")] + s3;
    ConsDeterministic(Spaces(true), s4);
    var s5 := [Spaces(true)] + s4;
    ConsDeterministic(Lit("case"), s5);
    assert [Lit("case")] + s5 == ClauseOpening() + rest;
  }

  /** Both clause shapes need no backtracking, so the greedy matcher finds
      exactly the regular expression's matches (see `Pattern.MatchIsLang`). */
  lemma {:induction false} ClauseDeterministic(press: string)
    requires |press| > 0 && press[0] != 't' && !IsSpace(press[0])
    ensures Deterministic(Clause(press))
  {
    ClosingDeterministic();
    var tail := ClauseCall(press) + ClauseClosing();
    CallDeterministic(press, ClauseClosing());
    assert tail[0] == Alt(press, "tap_code16");
    OpeningDeterministic(tail);
    assert Clause(press) == ClauseOpening() + tail;
  }

  /** Both clause patterns the patch searches for need no backtracking. */
  lemma FinishedAndResetDeterministic()
    ensures Deterministic(FinishedClause()) && Deterministic(ResetClause())
  {
    ClauseDeterministic("register_code16");
    ClauseDeterministic("unregister_code16");
  }

  /** Every clause match spells out KC_F24 inside the text it covers. */
  lemma ClauseMentionsTarget(s: string, press: string, p: nat)
    requires p <= |s| && MatchAt(s, p, Clause(press)).Some?
    ensures Contains(s, Target)
  {
    assert Clause(press)[10] == Lit(Target);
    MatchHasLit(s, p, Clause(press), 10, Target);
  }

  /** Ordinal n is a patch target: its finished function exists, its body
      mentions KC_F24, and the body holds a finished clause. */
  predicate Qualifies(c: string, n: nat) {
    var (body, found) := GetBody(c, FinishedName(n));
    found && Contains(body, Target) && Search(body, FinishedClause(), 0).Some?
  }

  /** The `"KC_F24" in finished_body` test never rejects a body that holds a
      clause: it only saves the clause search. */
  lemma TargetTestRedundant(c: string, n: nat)
    ensures Qualifies(c, n) <==>
              GetBody(c, FinishedName(n)).1 && Search(GetBody(c, FinishedName(n)).0, FinishedClause(), 0).Some?
  {
    var body := GetBody(c, FinishedName(n)).0;
    if Search(body, FinishedClause(), 0).Some? {
      ClauseMentionsTarget(body, "register_code16", Search(body, FinishedClause(), 0).value.0);
    }
  }

  /** r is c with the leftmost `clause` match in the body of function `name`
      (`Search` finds the leftmost match) replaced by repl, and every other
      character of c kept in place. */
  predicate ClauseSpliced(c: string, name: string, clause: Pattern, repl: string, r: string)
    requires GetBody(c, name).1 && Search(GetBody(c, name).0, clause, 0).Some?
  {
    var o := Locate(c, name).value.0;
    var (p, e) := Search(GetBody(c, name).0, clause, 0).value;
    && p <= e
    && o + 1 + e <= |c|
    && r == c[..o + 1 + p] + repl + c[o + 1 + e..]
  }

  /** Rewriting the finished clause of ordinal n: nothing
      when n is not a target. */
  function PatchFinished(c: string, n: nat): (r: Option<string>)
    ensures r.Some? <==> Qualifies(c, n)
  {
    var (body, found) := GetBody(c, FinishedName(n));
    if !found || !Contains(body, Target) then None
    else
      var (body', count) := SubFirst(body, FinishedClause(), FinishedReplacement);
      if count == 0 then None
      else Some(ReplaceBody(c, FinishedName(n), body'))
  }

  /** Rewriting the reset clause of ordinal n: the text is
      unchanged when the reset function is missing or holds no clause. */
  function PatchReset(c: string, n: nat): (r: string)
    ensures !GetBody(c, ResetName(n)).1 ==> r == c
    ensures GetBody(c, ResetName(n)).1 && NoMatch(GetBody(c, ResetName(n)).0, ResetClause(), 0) ==> r == c
  {
    var (body, found) := GetBody(c, ResetName(n));
    if !found then c
    else
      var (body', count) := SubFirst(body, ResetClause(), ResetReplacement);
      if count == 0 then c
      else ReplaceBody(c, ResetName(n), body')
  }

  /** Replacing the body of the function at brace pair (o, k) by a splice of
      that body is the same splice of the whole text. */
  lemma SpliceInBody(c: string, o: nat, k: nat, p: nat, e: nat, repl: string, body': string)
    requires o < k <= |c| && p <= e <= k - o - 1
    requires body' == c[o + 1..k][..p] + repl + c[o + 1..k][e..]
    ensures c[..o + 1] + body' + c[k..] == c[..o + 1 + p] + repl + c[o + 1 + e..]
  {
    var body := c[o + 1..k];
    assert c[..o + 1] + body[..p] == c[..o + 1 + p];
    assert body[e..] + c[k..] == c[o + 1 + e..];
  }

  /** The body replaced by `ReplaceBody` is a splice of the whole text. */
  lemma ReplaceBodySplice(c: string, name: string, body': string)
    requires Locate(c, name).Some?
    ensures ReplaceBody(c, name, body') ==
              c[..Locate(c, name).value.0 + 1] + body' + c[Locate(c, name).value.1..]
  {
    var r := ReplaceBody(c, name, body');
    var (o, k) := Locate(c, name).value;
    assert r == r[..o + 1] + r[o + 1..o + 1 + |body'|] + r[o + 1 + |body'|..];
  }

  /** The body `GetBody` reports is the text between the located braces. */
  lemma BodyBetweenBraces(c: string, name: string)
    requires GetBody(c, name).1
    ensures Locate(c, name).value.0 < Locate(c, name).value.1 <= |c|
    ensures GetBody(c, name).0 == c[Locate(c, name).value.0 + 1..Locate(c, name).value.1]
  {
  }

  /** The text `SubFirst` produces is the splice at the match `Search` finds. */
  lemma SubFirstSplices(s: string, clause: Pattern, repl: string)
    requires Search(s, clause, 0).Some?
    ensures Search(s, clause, 0).value.0 <= Search(s, clause, 0).value.1 <= |s|
    ensures SubFirst(s, clause, repl).0 ==
              s[..Search(s, clause, 0).value.0] + repl + s[Search(s, clause, 0).value.1..]
  {
  }

  /** A substitution inside a located body is a substitution in the text. */
  lemma {:induction false} BodySubstitution(c: string, name: string, clause: Pattern, repl: string)
    requires GetBody(c, name).1 && Search(GetBody(c, name).0, clause, 0).Some?
    ensures ClauseSpliced(c, name, clause, repl,
                          ReplaceBody(c, name, SubFirst(GetBody(c, name).0, clause, repl).0))
  {
    var body := GetBody(c, name).0;
    BodyBetweenBraces(c, name);
    SubFirstSplices(body, clause, repl);
    var o := Locate(c, name).value.0;
    var k := Locate(c, name).value.1;
    var p := Search(body, clause, 0).value.0;
    var e := Search(body, clause, 0).value.1;
    var body' := SubFirst(body, clause, repl).0;
    ReplaceBodySplice(c, name, body');
    SpliceInBody(c, o, k, p, e, repl, body');
  }

  /** For a target ordinal, only its finished clause changes. */
  lemma FinishedSplice(c: string, n: nat)
    requires Qualifies(c, n)
    ensures ClauseSpliced(c, FinishedName(n), FinishedClause(), FinishedReplacement, PatchFinished(c, n).value)
  {
    BodySubstitution(c, FinishedName(n), FinishedClause(), FinishedReplacement);
  }

  /** When the reset function holds a clause, only that clause changes. */
  lemma ResetSplice(c: string, n: nat)
    requires GetBody(c, ResetName(n)).1 && !NoMatch(GetBody(c, ResetName(n)).0, ResetClause(), 0)
    ensures ClauseSpliced(c, ResetName(n), ResetClause(), ResetReplacement, PatchReset(c, n))
  {
    BodySubstitution(c, ResetName(n), ResetClause(), ResetReplacement);
  }

  /** The loop over ordinals from n on: the first target is patched and the
      loop ends; with no target the text comes back unchanged. */
  function PatchFrom(c: string, n: nat): (r: (string, bool))
    ensures r.1 <==> exists k :: n <= k < Ordinals && Qualifies(c, k)
    ensures !r.1 ==> r.0 == c
    ensures r.1 ==> exists k :: && n <= k < Ordinals && Qualifies(c, k)
                               && (forall j :: n <= j < k ==> !Qualifies(c, j))
                               && r.0 == PatchReset(PatchFinished(c, k).value, k)
    decreases Ordinals - n
  {
    if n >= Ordinals then (c, false)
    else
      match PatchFinished(c, n)
      case Some(c') => (PatchReset(c', n), true)
      case None => PatchFrom(c, n + 1)
  }

  /** `_replace_fn24_in_space_tap_dance`. */
  function PatchSpaceTapDance(c: string): (r: (string, bool))
    ensures r.1 <==> exists k :: 0 <= k < Ordinals && Qualifies(c, k)
    ensures !r.1 ==> r.0 == c
    ensures r.1 ==> exists k :: && 0 <= k < Ordinals && Qualifies(c, k)
                               && (forall j :: 0 <= j < k ==> !Qualifies(c, j))
                               && r.0 == PatchReset(PatchFinished(c, k).value, k)
  {
    PatchFrom(c, 0)
  }

  /** A text spliced around a replacement that carries the marker carries it. */
  lemma MarkerBetween(x: string, pre: string, post: string, y: string)
    ensures Contains(x + (pre + PatchMarker + post) + y, PatchMarker)
  {
    var t := x + (pre + PatchMarker + post) + y;
    var i := |x| + |pre|;
    assert t[i..i + |PatchMarker|] == PatchMarker;
    assert OccursAt(t, i, PatchMarker);
  }

  /** A clause spliced with a replacement that carries the marker leaves the
      marker in the text. */
  lemma {:induction false} SplicedMarked(c: string, name: string, clause: Pattern, pre: string, r: string)
    requires GetBody(c, name).1 && Search(GetBody(c, name).0, clause, 0).Some?
    requires ClauseSpliced(c, name, clause, pre + PatchMarker + " */", r)
    ensures Contains(r, PatchMarker)
  {
    var o := Locate(c, name).value.0;
    var (p, e) := Search(GetBody(c, name).0, clause, 0).value;
    assert r == c[..o + 1 + p] + (pre + PatchMarker + " */") + c[o + 1 + e..];
    MarkerBetween(c[..o + 1 + p], pre, " */", c[o + 1 + e..]);
  }

  /** The rewritten finished function carries the marker. */
  lemma {:induction false} FinishedMarked(c: string, n: nat)
    requires Qualifies(c, n)
    ensures Contains(PatchFinished(c, n).value, PatchMarker)
  {
    FinishedSplice(c, n);
    SplicedMarked(c, FinishedName(n), FinishedClause(),
                  "case DOUBLE_TAP: tap_code16(KC_KP_DOT); register_code16(KC_SPACE); break; /* ",
                  PatchFinished(c, n).value);
  }

  /** A rewritten reset clause carries the marker. */
  lemma {:induction false} ResetMarked(c: string, n: nat)
    requires GetBody(c, ResetName(n)).1 && !NoMatch(GetBody(c, ResetName(n)).0, ResetClause(), 0)
    ensures Contains(PatchReset(c, n), PatchMarker)
  {
    ResetSplice(c, n);
    SplicedMarked(c, ResetName(n), ResetClause(),
                  "case DOUBLE_TAP: unregister_code16(KC_SPACE); break; /* ", PatchReset(c, n));
  }

  /** Rewriting the reset clause keeps the marker: either the text is left
      alone or the new reset clause carries the marker itself. */
  lemma {:induction false} ResetKeepsMarker(c: string, n: nat)
    requires Contains(c, PatchMarker)
    ensures Contains(PatchReset(c, n), PatchMarker)
  {
    if GetBody(c, ResetName(n)).1 && !NoMatch(GetBody(c, ResetName(n)).0, ResetClause(), 0) {
      ResetMarked(c, n);
    }
  }

  /** Every successful tap-dance patch leaves the marker comment in the text. */
  lemma {:induction false} PatchLeavesMarker(c: string)
    requires PatchSpaceTapDance(c).1
    ensures Contains(PatchSpaceTapDance(c).0, PatchMarker)
  {
    var k :| && 0 <= k < Ordinals && Qualifies(c, k)
             && (forall j :: 0 <= j < k ==> !Qualifies(c, j))
             && PatchSpaceTapDance(c).0 == PatchReset(PatchFinished(c, k).value, k);
    FinishedMarked(c, k);
    ResetKeepsMarker(PatchFinished(c, k).value, k);
  }

  /** A word found in a slice of the text is found in the text. */
  lemma ContainsSlice(c: string, i: nat, j: nat, w: string)
    requires i <= j <= |c| && Contains(c[i..j], w)
    ensures Contains(c, w)
  {
    var q :| 0 <= q <= |c[i..j]| - |w| && OccursAt(c[i..j], q, w);
    assert i + q + |w| <= j;
    forall t | 0 <= t < |w|
      ensures c[i + q + t] == w[t]
    {
      assert c[i..j][q..q + |w|][t] == w[t];
    }
    assert c[i + q..i + q + |w|] == w;
    assert OccursAt(c, i + q, w);
  }

  /** A keymap without KC_F24 has no ordinal to patch: a body is a slice of
      the text, so it cannot mention KC_F24 either. */
  lemma {:induction false} NoTargetNotQualifies(c: string, n: nat)
    requires !Contains(c, Target)
    ensures !Qualifies(c, n)
  {
    var body := GetBody(c, FinishedName(n)).0;
    if GetBody(c, FinishedName(n)).1 && Contains(body, Target) {
      BodyBetweenBraces(c, FinishedName(n));
      ContainsSlice(c, Locate(c, FinishedName(n)).value.0 + 1, Locate(c, FinishedName(n)).value.1, Target);
    }
  }

  /** A keymap without KC_F24 comes back unchanged and unpatched. */
  lemma {:induction false} NoTargetNoPatch(c: string)
    requires !Contains(c, Target)
    ensures PatchSpaceTapDance(c) == (c, false)
  {
    forall k | 0 <= k < Ordinals
      ensures !Qualifies(c, k)
    {
      NoTargetNotQualifies(c, k);
    }
  }
}
