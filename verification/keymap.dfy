/** The text transformation of `patch_keymap`: patch the tap dance, rename
    the generated `process_record_user` to `process_record_user_oryx`, and
    append a wrapper that runs the custom handler before the generated one.
    Reading and writing `keymap.c`, printing and exiting are left to the
    caller: the outcome message becomes a value and the fatal error becomes
    `None`. */
module Keymap {
  import opened Text
  import opened Pattern
  import opened TapDance

  /** `bool\s+process_record_user\s*\(` */
  function RenamePattern(): Pattern {
    [Lit("bool"), Spaces(true), Lit("process_record_user"), Spaces(false), Lit("(")]
  }

  /** The rename pattern needs no backtracking, so the greedy matcher finds
      exactly the regular expression's matches (see `Pattern.MatchIsLang`). */
  lemma {:induction false} RenameDeterministic()
    ensures Deterministic(RenamePattern())
  {
    var s1: Pattern := [Lit("(")];
    assert s1[1..] == [];
    ConsDeterministic(Lit("("), []);
    ConsDeterministic(Spaces(false), s1);
    var s2 := [Spaces(false)] + s1;
    ConsDeterministic(Lit("process_record_user"), s2);
    var s3 := [Lit("process_record_user")] + s2;
    ConsDeterministic(Spaces(true), s3);
    var s4 := [Spaces(true)] + s3;
    ConsDeterministic(Lit("bool"), s4);
    assert [Lit("bool")] + s4 == RenamePattern();
  }

  const RenamedSignature := "bool process_record_user_oryx("

  /** The banner, the declaration of the renamed handler and the include of
      the custom code, which the wrapper writes before its handler. */
  const WrapperHead :=
    "\n\n// ============================================================\n"
    + "// INJECTED BY ORYX-CUSTOM-MOONLANDER WORKFLOW\n"
    + "// ============================================================\n"
    + "bool process_record_user_oryx(uint16_t keycode, keyrecord_t *record);\n"
    + "#include \"custom_code.c\"\n"
    + "\n"

  /** The signature line of the handler the wrapper defines. */
  const HandlerSignature := "bool" + " " + "process_record_user" + "("

  /** The rest of that handler: run the custom handler first and fall back
      to the renamed generated one. */
  const HandlerRest :=
    "uint16_t keycode, keyrecord_t *record) {\n"
    + "    if (!process_record_user_custom(keycode, record)) {\n"
    + "        return false;\n"
    + "    }\n"
    + "    return process_record_user_oryx(keycode, record);\n"
    + "}\n"

  /** The code appended after the renamed keymap, character for character. */
  function Wrapper(): string {
    WrapperHead + HandlerSignature + HandlerRest
  }

  /** Which of the three tap-dance messages the driver prints. */
  datatype Outcome =
    | Replaced           // the tap dance was patched
    | TargetUnmatched    // KC_F24 occurs, but no dance qualified
    | TargetAbsent       // KC_F24 does not occur at all

  /** Some ordinal names a double-tap KC_F24 space dance. */
  predicate SomeDanceQualifies(c: string) {
    exists k :: 0 <= k < Ordinals && Qualifies(c, k)
  }

  /** v is t with its leftmost `bool process_record_user(` signature renamed
      and the wrapper appended. */
  predicate RenamedAndWrapped(t: string, v: string) {
    exists p: nat, e: nat :: && p <= e <= |t|
                             && Leftmost(t, RenamePattern(), 0, p, e)
                             && v == t[..p] + RenamedSignature + t[e..] + Wrapper()
  }

  /** The message the driver prints after the tap-dance patch. */
  function TapDanceOutcome(c: string): (r: Outcome)
    ensures r == Replaced <==> SomeDanceQualifies(c)
    ensures r == TargetUnmatched <==> !SomeDanceQualifies(c) && Contains(c, Target)
  {
    var (t, replaced) := PatchSpaceTapDance(c);
    if replaced then Replaced
    else if Contains(t, Target) then TargetUnmatched
    else TargetAbsent
  }

  /** The rename of the generated handler and the appended wrapper, or
      `None` where the driver exits with an error. */
  function RenameAndWrap(t: string): (r: Option<string>)
    ensures r.None? <==> NoMatch(t, RenamePattern(), 0)
    ensures r.Some? ==> RenamedAndWrapped(t, r.value)
  {
    if Search(t, RenamePattern(), 0).None? then None
    else
      var (renamed, _) := SubFirst(t, RenamePattern(), RenamedSignature);
      Some(renamed + Wrapper())
  }

  /** The string part of `patch_keymap`: the message chosen and the new
      keymap text, or `None` where the driver exits with an error because
      the text has no `process_record_user` definition. The custom code path
      is accepted and, as in the driver, never used: the wrapper always
      includes "custom_code.c". */
  function PatchKeymap(c: string, customCodePath: string): (r: (Outcome, Option<string>))
    ensures r.0 == Replaced <==> SomeDanceQualifies(c)
    ensures r.0 == TargetUnmatched <==> !SomeDanceQualifies(c) && Contains(c, Target)
    ensures r.1.None? <==> NoMatch(PatchSpaceTapDance(c).0, RenamePattern(), 0)
    ensures r.1.Some? ==> RenamedAndWrapped(PatchSpaceTapDance(c).0, r.1.value)
  {
    (TapDanceOutcome(c), RenameAndWrap(PatchSpaceTapDance(c).0))
  }

  /** An occurrence of a + b is an occurrence of a followed by one of b. */
  lemma OccursSplit(v: string, q: nat, a: string, b: string)
    requires OccursAt(v, q, a + b)
    ensures OccursAt(v, q, a) && OccursAt(v, q + |a|, b)
  {
    assert v[q..q + |a|] == (a + b)[..|a|];
    assert v[q + |a|..q + |a| + |b|] == (a + b)[|a|..];
  }

  /** What each piece of the rename pattern meets in a written signature. */
  lemma {:induction false} SignaturePieces(v: string, q: nat)
    requires OccursAt(v, q, HandlerSignature)
    ensures OccursAt(v, q, "bool") && OccursAt(v, q + 5, "process_record_user") && OccursAt(v, q + 24, "(")
    ensures SkipSpace(v, q + 4) == q + 5 && SkipSpace(v, q + 24) == q + 24
  {
    OccursSplit(v, q, "bool" + " " + "process_record_user", "(");
    OccursSplit(v, q, "bool" + " ", "process_record_user");
    OccursSplit(v, q, "bool", " ");
    assert v[q + 4] == v[q + 4..q + 5][0] == ' ';
    assert v[q + 5] == v[q + 5..q + 24][0] == 'p';
    assert v[q + 24] == v[q + 24..q + 25][0] == '(';
    assert SkipSpace(v, q + 5) == q + 5;
  }

  /** The rename pattern matches wherever the handler signature is written. */
  lemma {:induction false} SignatureMatches(v: string, q: nat)
    requires OccursAt(v, q, HandlerSignature)
    ensures MatchAt(v, q, RenamePattern()) == Some(q + |HandlerSignature|)
  {
    var pat := RenamePattern();
    SignaturePieces(v, q);
    NextStep(v, q, pat);
    NextStep(v, q + 4, pat[1..]);
    NextStep(v, q + 5, pat[2..]);
    NextStep(v, q + 24, pat[3..]);
    NextStep(v, q + 24, pat[4..]);
    assert pat[5..] == [];
  }

  /** A text that holds the handler signature anywhere has a match. */
  lemma {:induction false} SignatureFound(v: string, q: nat)
    requires OccursAt(v, q, HandlerSignature)
    ensures !NoMatch(v, RenamePattern(), 0)
  {
    SignatureMatches(v, q);
    assert MatchAt(v, q, RenamePattern()).Some?;
  }

  /** Moving the start of a three-part text onto its head. */
  lemma AppendRegroup(s: string, h: string, w: string, b: string)
    ensures s + (h + w + b) == (s + h) + w + b
  {
  }

  /** w occurs in a + w + b right after a. */
  lemma OccursBetween(a: string, w: string, b: string)
    ensures OccursAt(a + w + b, |a|, w)
  {
    assert (a + w + b)[|a|..|a| + |w|] == w;
  }

  /** Appended after any text, code that writes the handler signature after
      a head h is matched by the rename pattern at exactly that signature. */
  lemma {:induction false} SignatureAfterHead(s: string, h: string, r: string)
    ensures MatchAt(s + (h + HandlerSignature + r), |s| + |h|, RenamePattern())
            == Some(|s| + |h| + |HandlerSignature|)
    ensures !NoMatch(s + (h + HandlerSignature + r), RenamePattern(), 0)
  {
    var a := s + h;
    AppendRegroup(s, h, HandlerSignature, r);
    OccursBetween(a, HandlerSignature, r);
    SignatureMatches(s + (h + HandlerSignature + r), |a|);
    SignatureFound(s + (h + HandlerSignature + r), |a|);
  }

  /** Whatever precedes it, the wrapper defines a `process_record_user` that
      the rename pattern finds: the match covers exactly the wrapper's own
      handler signature, right after its head. */
  lemma {:induction false} WrapperMatches(s: string)
    ensures MatchAt(s + Wrapper(), |s| + |WrapperHead|, RenamePattern())
            == Some(|s| + |WrapperHead| + |HandlerSignature|)
    ensures !NoMatch(s + Wrapper(), RenamePattern(), 0)
  {
    SignatureAfterHead(s, WrapperHead, HandlerRest);
  }

  /** Patching is not idempotent: on the patched text the rename pattern
      matches again (the wrapper's own handler guarantees a match, though the
      leftmost one may lie earlier), so a second run succeeds and appends
      another wrapper. */
  lemma {:induction false} RenameApplies(t: string)
    requires RenameAndWrap(t).Some?
    ensures RenameAndWrap(RenameAndWrap(t).value).Some?
  {
    var p: nat, e: nat :| && p <= e <= |t|
                          && Leftmost(t, RenamePattern(), 0, p, e)
                          && RenameAndWrap(t).value == t[..p] + RenamedSignature + t[e..] + Wrapper();
    WrapperMatches(t[..p] + RenamedSignature + t[e..]);
  }
}
