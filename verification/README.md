# Keymap patcher, modelled in Dafny

This project models the text transformation that `scripts/patch_keymap.py`
applies to an Oryx-generated QMK `keymap.c`. It has three parts:

- **A C brace matcher.** It skips braces inside string literals, character
  literals, line comments and block comments.
- **Reading and replacing a function body by name.** The signature is found
  with the regular expression `\bNAME\s*\([^)]*\)\s*\{`.
- **Two patches applied by the driver:**
  - The double-tap `KC_F24` clause of the first `dance_<n>_finished`
    function (n = 0..23) becomes "num-pad dot, then hold space". The
    matching `dance_<n>_reset` clause becomes "release space".
  - The generated `process_record_user` is renamed to
    `process_record_user_oryx`. Then a wrapper is appended that runs
    `process_record_user_custom` first.

Modules, one per file:

| module | file | what it holds |
|---|---|---|
| `Text` | text.dfy | Python's `\s` (`str.isspace`), `\b`, `str.find`, `in`, and `str(n)` for the ordinal |
| `Scanner` | scanner.dfy | `_find_matching_brace`, written as a lexical step plus a scan loop |
| `Pattern` | pattern.dfy | the regular-expression shapes the script uses, with a greedy matcher, `re.search` and `re.subn(count=1)` |
| `FunctionBody` | function_body.dfy | `_get_function_body` and `_replace_function_body` |
| `TapDance` | tap_dance.dfy | `_replace_fn24_in_space_tap_dance` |
| `Keymap` | keymap.dfy | the string part of `patch_keymap` |

Two reference definitions check the scanner's meaning:

- **Per-character depth changes.** `Scanner.Deltas` is the depth change of
  each character, and `Scanner.Depth` takes prefix sums of it.
  `MatchBrace` is the first `}` after which that depth returns to 0.
- **Plain brace counting.** `Scanner.NaiveMatch` counts braces with no
  lexical contexts. The scanner agrees with it on text that has no quotes
  and no slashes.

The patterns also have a reference definition. `Pattern.Lang` is the regular
expression's own meaning, the one a backtracking engine implements. Every
shape the script uses is `Deterministic`, and for those shapes the greedy
matcher finds exactly the matches in `Lang`.

Two details of the code shape the model:

- The body's opening brace is the first `{` at or after the **start** of
  the signature match (lines 98 and 115). It is not necessarily the `{` that
  ends the match. When the parameter list contains a `{`, that earlier brace is used.
  `FunctionBody.OpenBraceFound` shows that the search always succeeds, so the
  `open_brace_idx == -1` branches (lines 99-100 and 116-117) cannot be taken.
- The wrapper always writes `#include "custom_code.c"`. The
  `custom_code_path` argument is accepted and never used.
  `Keymap.PatchKeymap` takes it as a parameter and ignores it.

## Model

| member | source | states |
|---|---|---|
| Scanner.Step | scripts/patch_keymap.py:24-87 | One loop iteration consumes one or two characters. The depth changes by +1 or -1 only for a brace met in code; inside a literal or comment it never changes. Two characters are consumed only on a look-ahead (`//`, `/*` in code, `*/` in a block comment), and then the context switches. |
| Scanner.Scan | scripts/patch_keymap.py:24-89 | The loop answers -1 or an index at or after its start that holds `}`. Which `}` it is, is stated by `Scanner.ScanSpec`. |
| Scanner.MatchBrace | scripts/patch_keymap.py:8-89 | An index out of range or not on `{` gives -1. Otherwise the answer is the `}` after which the per-character depth first returns to 0, and the depth is at least 1 before that. The answer is -1 only when the depth stays at least 1 to the end of the text. |
| Scanner.ScanSpec | scripts/patch_keymap.py:79-89 | A scan that starts at depth 1 or more means what the prefix sums say. It never leaves through the "depth below zero" exit (line 85-86). |
| Scanner.MatchBraceSpec | scripts/patch_keymap.py:16-89 | After its opening `{`, the scan's answer is the first return to depth 0, stated through prefix sums. |
| Scanner.MatchBraceIsNaive | scripts/patch_keymap.py:79-89 | On text with no quotes and no slashes, the scanner's answer equals plain brace counting. |
| Scanner.PlainInert | scripts/patch_keymap.py:79-87 | Text with no quotes, slashes or braces leaves the depth and the lexical context unchanged. |
| Scanner.LiteralInert | scripts/patch_keymap.py:42-60 | A string or character literal, escapes included, contributes nothing to the depth, whatever braces it holds. The scan comes back to code after it. |
| Scanner.LineCommentInert | scripts/patch_keymap.py:28-32 | A `//` comment up to its newline contributes nothing to the depth. |
| Scanner.BlockCommentInert | scripts/patch_keymap.py:34-40 | A `/* */` comment contributes nothing to the depth, whatever braces it holds. |
| Scanner.InertConcat | scripts/patch_keymap.py:24-87 | Two inert pieces of text joined are inert. |
| Scanner.DeltasConcat | scripts/patch_keymap.py:24-87 | The per-character depth changes of a + b are those of a, then those of b scanned from the context a ends in, provided the join is safe for the two-character look-ahead (line 26, used at lines 35 and 62-69): b is empty, scanning a never looks past its end, or b starts with neither `/` nor `*`. Without that condition it fails: `Scanner.DeltasSplitComment` shows a = `/`, b = `*{`. |
| Scanner.DeltasSplitComment | scripts/patch_keymap.py:62-69 | The join condition of `Scanner.DeltasConcat` cannot be dropped. Split between `/` and `*{`, the two halves count the brace, while the whole text opens a block comment that hides it. |
| Scanner.MatchBraceWraps | scripts/patch_keymap.py:8-89 | In `pre { body } rest` with a balanced body, the `{` is matched to that `}`, whatever the body holds in literals or comments and whatever follows. |
| Scanner.UnclosedBrace | scripts/patch_keymap.py:89 | A `{` followed only by balanced text is unmatched (-1). |
| Scanner.MaskedBracesSkipped | scripts/patch_keymap.py:9-11 | Braces inside a string literal and inside a block comment between a real pair are skipped. |
| Scanner.MaskedBracesExample | scripts/patch_keymap.py:9-11 | A concrete text, `{"{"; int x = 1; /* { */ return x;}`, has its first brace matched to its last character. |
| Text.Decimal | scripts/patch_keymap.py:133-134 | The ordinal in the function names is written in decimal digits, with the value n and no leading zero. |
| Text.IsSpace | scripts/patch_keymap.py:93 | Python's `\s` in a str pattern: exactly the characters for which `str.isspace()` holds (ASCII tab to carriage return, the four separators 28-31, space, and the Unicode spaces). |
| Text.Contains | scripts/patch_keymap.py:137 | Python's `w in s`: some position of s where w occurs whole. |
| Text.WordBoundary | scripts/patch_keymap.py:93 | `\b` at a position: exactly one of its two neighbours is a word character, and outside the text counts as non-word. Word characters are ASCII only. |
| Text.FindChar | scripts/patch_keymap.py:98 | `str.find`: the first occurrence at or after the start, or none at all. |
| Pattern.MatchSound | scripts/patch_keymap.py:93 | Every greedy match is a match of the regular expression. |
| Pattern.MatchAt | scripts/patch_keymap.py:93 | Greedy left-to-right matching of one piece sequence at a position: a literal word, an alternative of two words, `\s*` or `\s+` taken as far as it goes, `[^x]*` up to the next x, and `\b`. A match ends at or after its start and within the text. Its meaning as a regular expression is stated by `Pattern.MatchIsLang`. |
| Pattern.MatchComplete | scripts/patch_keymap.py:93 | For deterministic shapes, every match of the regular expression is the greedy one. |
| Pattern.MatchIsLang | scripts/patch_keymap.py:93 | For deterministic shapes, greedy matching at p ends at e exactly when c[p..e] is in the language of the regular expression. |
| Pattern.MatchHasLit | scripts/patch_keymap.py:141 | A match of a pattern that contains a literal word contains that word in the matched text. |
| Pattern.Search | scripts/patch_keymap.py:94 | `re.search`: the leftmost match, with no match starting earlier. The answer is none exactly when no position matches. |
| Pattern.SubFirst | scripts/patch_keymap.py:140-145 | `re.subn(count=1)`: the count is 0 exactly when nothing matches, and then the text is unchanged. Otherwise the count is 1 and the leftmost match is replaced, with the rest kept. |
| FunctionBody.SignatureDeterministic | scripts/patch_keymap.py:93 | The signature pattern needs no backtracking, so the model finds the regular expression's match. |
| FunctionBody.SignaturePattern | scripts/patch_keymap.py:93 | The signature `\bNAME\s*\([^)]*\)\s*\{`, piece for piece, with the name taken literally as `re.escape` makes it. The same pattern is built at line 110. |
| FunctionBody.OpenBraceFound | scripts/patch_keymap.py:98-100 | After a signature match, `find("{", m.start())` always succeeds, before the end of the match. |
| FunctionBody.Locate | scripts/patch_keymap.py:93-104 | No signature gives no body. Otherwise the opening brace is the first `{` at or after the match start, and there is a body exactly when the scanner matches that brace. |
| FunctionBody.GetBody | scripts/patch_keymap.py:109-123 | `("", false)` when the body is not located. Otherwise the body is the text strictly between the `{` and the `}` the scanner matches to it. |
| FunctionBody.ReplaceBody | scripts/patch_keymap.py:92-106 | The text is unchanged when the body is not located. Otherwise everything up to and including the `{` is kept, the new body follows, then everything from the `}` on. |
| FunctionBody.ReplaceGetRoundTrip | scripts/patch_keymap.py:92-123 | Writing back the body just read gives the original text. |
| TapDance.ClauseDeterministic | scripts/patch_keymap.py:141 | The DOUBLE_TAP clause shape needs no backtracking for any press word that starts with neither `t` nor a space. |
| TapDance.FinishedAndResetDeterministic | scripts/patch_keymap.py:141-153 | Both DOUBLE_TAP clause patterns, the finished one (line 141) and the reset one (line 153), need no backtracking, so the model finds the regular expression's matches. |
| TapDance.Clause | scripts/patch_keymap.py:141 | The DOUBLE_TAP clause `case\s+DOUBLE_TAP\s*:\s*(?:PRESS\|tap_code16)\s*\(\s*KC_F24\s*\)\s*;\s*break\s*;`, piece for piece, for a press word. |
| TapDance.FinishedClause | scripts/patch_keymap.py:141 | The finished clause: the press word is `register_code16`. |
| TapDance.ResetClause | scripts/patch_keymap.py:153 | The reset clause: the press word is `unregister_code16`. |
| TapDance.FinishedName | scripts/patch_keymap.py:133 | The name `dance_<n>_finished`, with n in decimal. |
| TapDance.ResetName | scripts/patch_keymap.py:134 | The name `dance_<n>_reset`, with n in decimal. |
| TapDance.PatchMarker | scripts/patch_keymap.py:5 | The comment tag `ORYX_FN24_NUMDOT_SPACE_PATCH` written into every rewritten clause. |
| TapDance.FinishedReplacement | scripts/patch_keymap.py:142 | The finished clause's replacement, character for character: tap the num-pad dot, press space, break, then the marker comment. |
| TapDance.ResetReplacement | scripts/patch_keymap.py:154 | The reset clause's replacement, character for character: release space, break, then the marker comment. |
| TapDance.Qualifies | scripts/patch_keymap.py:136-147 | An ordinal is patched when its finished body is found, mentions `KC_F24` and holds a finished clause. |
| TapDance.ClauseMentionsTarget | scripts/patch_keymap.py:137-141 | A text holding a clause match contains `KC_F24`. |
| TapDance.TargetTestRedundant | scripts/patch_keymap.py:136-147 | The `"KC_F24" in finished_body` test never rejects a body that holds a clause. An ordinal qualifies exactly when its finished body is found and holds a clause. |
| TapDance.PatchFinished | scripts/patch_keymap.py:136-148 | The finished rewrite happens exactly when the ordinal qualifies. |
| TapDance.FinishedSplice | scripts/patch_keymap.py:140-148 | The rewrite replaces the leftmost finished clause in that body by the num-pad-dot-and-space clause, and keeps every other character. |
| TapDance.PatchReset | scripts/patch_keymap.py:150-159 | A missing reset function, or one with no clause, leaves the text unchanged. |
| TapDance.ResetSplice | scripts/patch_keymap.py:150-159 | Otherwise the leftmost reset clause is replaced by the release-space clause, and every other character is kept. |
| TapDance.BodySubstitution | scripts/patch_keymap.py:140-159 | Substituting inside a located body and writing it back is the same substitution in the whole text. |
| TapDance.PatchFrom | scripts/patch_keymap.py:132-163 | The loop reports success exactly when some remaining ordinal qualifies. Then the first qualifying ordinal is patched, finished then reset, and the loop stops. Otherwise the text comes back unchanged. |
| TapDance.PatchSpaceTapDance | scripts/patch_keymap.py:126-163 | As `PatchFrom`, over ordinals 0 to 23. |
| TapDance.NoTargetNoPatch | scripts/patch_keymap.py:132-163 | A keymap with no `KC_F24` anywhere comes back unchanged and reported as not patched. |
| TapDance.FinishedMarked | scripts/patch_keymap.py:142 | The rewritten finished function carries the `ORYX_FN24_NUMDOT_SPACE_PATCH` marker. |
| TapDance.ResetKeepsMarker | scripts/patch_keymap.py:150-159 | The reset step never removes the marker. |
| TapDance.PatchLeavesMarker | scripts/patch_keymap.py:140-161 | Every successful tap-dance patch leaves the marker in the text. |
| Keymap.TapDanceOutcome | scripts/patch_keymap.py:182-188 | "Replaced" exactly when some ordinal qualifies. The warning exactly when none qualifies and `KC_F24` occurs. "Not present" otherwise. |
| Keymap.RenamePattern | scripts/patch_keymap.py:191 | The rename pattern `bool\s+process_record_user\s*\(`, piece for piece. |
| Keymap.RenameDeterministic | scripts/patch_keymap.py:191-197 | The rename pattern needs no backtracking, so `re.search` and `re.sub` find the match the model finds. |
| Keymap.RenamedSignature | scripts/patch_keymap.py:197 | The replacement `bool process_record_user_oryx(` that the rename writes. |
| Keymap.Wrapper | scripts/patch_keymap.py:199-212 | The appended code, character for character, including the hardcoded `#include "custom_code.c"`. |
| Keymap.RenameAndWrap | scripts/patch_keymap.py:190-214 | The fatal error exactly when `bool\s+process_record_user\s*\(` matches nowhere. Otherwise the leftmost match becomes `bool process_record_user_oryx(`, the rest is kept, and the wrapper is appended. |
| Keymap.PatchKeymap | scripts/patch_keymap.py:167-214 | The message and the new text, as the two parts above, applied to the output of the tap-dance patch. |
| Keymap.SignatureMatches | scripts/patch_keymap.py:191 | The rename pattern matches the handler signature the wrapper writes. |
| Keymap.WrapperMatches | scripts/patch_keymap.py:199-212 | Whatever text s precedes it, the rename pattern matches at the wrapper's own handler signature, right after the wrapper's head, and the match covers exactly that signature. So s + wrapper always has a rename match. |
| Keymap.RenameApplies | scripts/patch_keymap.py:190-214 | The script is not idempotent. On its own output the rename succeeds again, so a second run renames one more handler signature and appends a second wrapper. |

## Left out

- Reading and writing `keymap.c`, the existence check, the directory
  listing, the printed messages, `sys.exit` and the command line (lines
  168-179, 193-195, 216-226). The printed tap-dance message is modelled only
  as the `Keymap.Outcome` value, and the fatal exit only as `None`.
- `custom_qmk/custom_code.c` and `process_record_user_custom` are C code
  that the wrapper includes. They are not part of this model.
- General regular expressions. Only the four fixed shapes the script uses
  are modelled: the function signature, the two DOUBLE_TAP clauses and the
  rename pattern. The function name is matched literally, as
  `re.escape` makes it.
- The `\w` behind `\b` is modelled as ASCII letters, digits and `_`.
  Python's `\w` on `str` also accepts non-ASCII letters and digits. This
  matters only when a non-ASCII word character sits right before a
  `dance_<n>_...` name.
- The replacement strings contain no backslashes, so `re.subn`'s escape
  processing of the replacement is not modelled.
- TapDance.PatchReset: its contract covers only the cases that leave the
  text unchanged. What the rewrite produces is stated by
  `TapDance.ResetSplice`.
