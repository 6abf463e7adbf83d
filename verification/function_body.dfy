/** Locating a C function body by name and reading or replacing the text
    between its braces (`_get_function_body` and `_replace_function_body`). */
module FunctionBody {
  import opened Text
  import opened Scanner
  import opened Pattern

  /** The signature `\bNAME\s*\([^)]*\)\s*\{` with NAME taken literally. */
  function SignaturePattern(name: string): Pattern {
    [Boundary, Lit(name), Spaces(false), Lit("("), Upto(')'), Lit(")"), Spaces(false), Lit("{")]
  }

  /** The signature shape needs no backtracking, so its greedy matches are
      exactly the regular expression's matches. */
  lemma SignatureDeterministic(name: string)
    ensures Deterministic(SignaturePattern(name))
  {
    var s1: Pattern := [Lit("{")];
    assert s1[1..] == [];
    ConsDeterministic(Lit("{"), []);
    ConsDeterministic(Spaces(false), s1);
    var s2 := [Spaces(false)] + s1;
    ConsDeterministic(Lit(")"), s2);
    var s3 := [Lit(")")] + s2;
    ConsDeterministic(Upto(')'), s3);
    var s4 := [Upto(')')] + s3;
    ConsDeterministic(Lit("("), s4);
    var s5 := [Lit("(")] + s4;
    ConsDeterministic(Spaces(false), s5);
    var s6 := [Spaces(false)] + s5;
    ConsDeterministic(Lit(name), s6);
    var s7 := [Lit(name)] + s6;
    ConsDeterministic(Boundary, s7);
    var s8 := [Boundary] + s7;
    assert s8 == SignaturePattern(name);
  }

  /** The signature match always ends with a `{`, so searching for `{` from the
      start of the match always succeeds, at or before that brace. */
  lemma OpenBraceFound(c: string, name: string)
    requires Search(c, SignaturePattern(name), 0).Some?
    ensures var (p, e) := Search(c, SignaturePattern(name), 0).value;
            FindChar(c, '{', p).Some? && FindChar(c, '{', p).value < e
  {
    var (p, e) := Search(c, SignaturePattern(name), 0).value;
    MatchEndsWith(c, p, SignaturePattern(name), "{");
    assert c[e - 1] == c[e - 1..e][0];
  }

  /** The body's brace pair: the first `{` at or after the start of the
      leftmost signature match, and the `}` the scanner matches to it. */
  function Locate(c: string, name: string): (r: Option<(nat, nat)>)
    ensures r.Some? ==> r.value.0 < r.value.1 < |c|
    ensures Search(c, SignaturePattern(name), 0).None? ==> r.None?
    ensures Search(c, SignaturePattern(name), 0).Some? ==>
              var p := Search(c, SignaturePattern(name), 0).value.0;
              exists o :: && p <= o < |c| && c[o] == '{' && Avoids(c, p, o, '{')
                          && (r.None? <==> MatchBrace(c, o) == -1)
                          && (r.Some? ==> r.value == (o, MatchBrace(c, o)))
  {
    match Search(c, SignaturePattern(name), 0)
    case None => None
    case Some((p, _)) =>
      OpenBraceFound(c, name);
      match FindChar(c, '{', p)
      case None => None
      case Some(o) =>
        var k := MatchBrace(c, o);
        if k == -1 then None else Some((o, k as nat))
  }

  /** b lies strictly between the `{` at o and the `}` the scanner matches to it. */
  predicate BodyAt(c: string, o: nat, b: string) {
    && o + |b| + 1 < |c|
    && c[o] == '{'
    && c[o + 1..o + 1 + |b|] == b
    && MatchBrace(c, o) == o + |b| + 1
  }

  /** `_get_function_body`: the body text and whether it was found; ("", false)
      when the signature is absent or its brace is unmatched. */
  function GetBody(c: string, name: string): (r: (string, bool))
    ensures r.1 <==> Locate(c, name).Some?
    ensures !r.1 ==> r.0 == ""
    ensures r.1 ==> BodyAt(c, Locate(c, name).value.0, r.0)
  {
    match Locate(c, name)
    case None => ("", false)
    case Some((o, k)) => (c[o + 1..k], true)
  }

  /** `_replace_function_body`: the located body replaced by `body`, braces
      and everything outside them kept; the text unchanged when the function
      is not found. */
  function ReplaceBody(c: string, name: string, body: string): (r: string)
    ensures Locate(c, name).None? ==> r == c
    ensures Locate(c, name).Some? ==>
              var (o, k) := Locate(c, name).value;
              && |r| == |c| - (k - o - 1) + |body|
              && r[..o + 1] == c[..o + 1]
              && r[o + 1..o + 1 + |body|] == body
              && r[o + 1 + |body|..] == c[k..]
  {
    match Locate(c, name)
    case None => c
    case Some((o, k)) => c[..o + 1] + body + c[k..]
  }

  /** Writing back the body just read changes nothing. */
  lemma ReplaceGetRoundTrip(c: string, name: string)
    requires GetBody(c, name).1
    ensures ReplaceBody(c, name, GetBody(c, name).0) == c
  {
    var (o, k) := Locate(c, name).value;
    assert c[..o + 1] + c[o + 1..k] + c[k..] == c;
  }
}
