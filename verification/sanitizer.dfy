/**
 * `replace_chars`, the filename sanitiser shared (verbatim) by every script:
 * each character of a fixed unsafe set becomes '-', then every ASCII space is
 * deleted. Other characters, among them tab and the full-width space, are kept.
 */
module Sanitizer {

  /** `\ / : * ? " < > |` and the full-width yen sign, less-than, greater-than and vertical bar. */
  predicate IsUnsafe(c: char) {
    || c == '\\' || c == '/' || c == ':' || c == '*' || c == '?' || c == '"' || c == '<' || c == '>' || c == '|'
    || c == '\U{FFE5}' || c == '\U{FF1C}' || c == '\U{FF1E}' || c == '\U{FF5C}'
  }

  /** The output alphabet of a sanitised title: no unsafe character and no ASCII space. */
  predicate IsSafe(s: string) {
    forall i :: 0 <= i < |s| ==> !IsUnsafe(s[i]) && s[i] != ' '
  }

  /** `s.translate(table)` with the table mapping every unsafe character to '-'. */
  function Translate(s: string): string
    decreases |s|
  {
    if s == [] then [] else [if IsUnsafe(s[0]) then '-' else s[0]] + Translate(s[1..])
  }

  /** `s.replace(" ", "")` */
  function DeleteSpaces(s: string): string
    decreases |s|
  {
    if s == [] then [] else (if s[0] == ' ' then [] else [s[0]]) + DeleteSpaces(s[1..])
  }

  /** `replace_chars(s)`: translate first, then delete the spaces, as `replace_chars` does. */
  function ReplaceChars(s: string): (r: string)
    ensures IsSafe(r)
    ensures |r| <= |s|
  {
    TranslateShape(s);
    DeleteSpacesShape(Translate(s));
    DeleteSpaces(Translate(s))
  }

  lemma {:induction false} TranslateShape(s: string)
    ensures |Translate(s)| == |s|
    ensures forall i :: 0 <= i < |s| ==> !IsUnsafe(Translate(s)[i])
    ensures forall i :: 0 <= i < |s| ==> (Translate(s)[i] == ' ' <==> s[i] == ' ')
    decreases |s|
  {
    if s != [] {
      TranslateShape(s[1..]);
      assert forall i :: 1 <= i < |s| ==> Translate(s)[i] == Translate(s[1..])[i - 1];
    }
  }

  lemma {:induction false} DeleteSpacesShape(s: string)
    ensures |DeleteSpaces(s)| <= |s|
    ensures (forall i :: 0 <= i < |s| ==> !IsUnsafe(s[i])) ==> IsSafe(DeleteSpaces(s))
    decreases |s|
  {
    if s != [] {
      DeleteSpacesShape(s[1..]);
    }
  }

  /** What one character contributes to the output of `replace_chars`. */
  function Image(c: char): string {
    if c == ' ' then [] else if IsUnsafe(c) then "-" else [c]
  }

  /** Reference definition: the output is the concatenation of the images of the input characters, in order. */
  function Charwise(s: string): string
    decreases |s|
  {
    if s == [] then [] else Image(s[0]) + Charwise(s[1..])
  }

  /** The two-pass source definition is the character-wise map. */
  lemma {:induction false} ReplaceCharsIsCharwise(s: string)
    ensures ReplaceChars(s) == Charwise(s)
    decreases |s|
  {
    if s != [] {
      ReplaceCharsIsCharwise(s[1..]);
      assert Translate(s) == [Translate(s)[0]] + Translate(s[1..]);
    }
  }

  /** A string that is already safe is a fixed point; with `IsSafe` of every result this is the whole story. */
  lemma {:induction false} ReplaceCharsKeepsSafe(s: string)
    requires IsSafe(s)
    ensures ReplaceChars(s) == s
    decreases |s|
  {
    ReplaceCharsIsCharwise(s);
    CharwiseOfSafe(s);
  }

  lemma {:induction false} CharwiseOfSafe(s: string)
    requires IsSafe(s)
    ensures Charwise(s) == s
    decreases |s|
  {
    if s != [] {
      CharwiseOfSafe(s[1..]);
    }
  }

  /** `replace_chars` is idempotent: sanitising a sanitised title changes nothing. */
  lemma ReplaceCharsIdempotent(s: string)
    ensures ReplaceChars(ReplaceChars(s)) == ReplaceChars(s)
  {
    ReplaceCharsKeepsSafe(ReplaceChars(s));
  }

  /** The fixed points of `replace_chars` are exactly the safe strings. */
  lemma ReplaceCharsFixedIffSafe(s: string)
    ensures ReplaceChars(s) == s <==> IsSafe(s)
  {
    if IsSafe(s) {
      ReplaceCharsKeepsSafe(s);
    }
  }

  /** Characters that are neither unsafe nor a space survive, in order. */
  lemma {:induction false} ReplaceCharsKeepsOthers(s: string)
    requires forall i :: 0 <= i < |s| ==> s[i] != ' '
    ensures |ReplaceChars(s)| == |s|
    ensures forall i :: 0 <= i < |s| ==> ReplaceChars(s)[i] == (if IsUnsafe(s[i]) then '-' else s[i])
    decreases |s|
  {
    ReplaceCharsIsCharwise(s);
    CharwiseWithoutSpaces(s);
  }

  lemma {:induction false} CharwiseWithoutSpaces(s: string)
    requires forall i :: 0 <= i < |s| ==> s[i] != ' '
    ensures |Charwise(s)| == |s|
    ensures forall i :: 0 <= i < |s| ==> Charwise(s)[i] == (if IsUnsafe(s[i]) then '-' else s[i])
    decreases |s|
  {
    if s != [] {
      CharwiseWithoutSpaces(s[1..]);
    }
  }

  /** Concrete behaviour: the ASCII space vanishes, the colon becomes '-', the full-width space stays. */
  lemma ReplaceCharsExample()
    ensures ReplaceChars("a b:\U{3000}") == "ab-\U{3000}"
  {
    ReplaceCharsIsCharwise("a b:\U{3000}");
    CharwiseExample();
  }

  lemma CharwiseExample()
    ensures Charwise("a b:\U{3000}") == "ab-\U{3000}"
  {
    var s := "a b:\U{3000}";
    assert s[5..] == [];
    CharwiseStep(s, 4);
    CharwiseStep(s, 3);
    assert Charwise(s[3..]) == "-\U{3000}";
    CharwiseStep(s, 2);
    CharwiseStep(s, 1);
    CharwiseStep(s, 0);
    assert s[0..] == s;
  }

  lemma CharwiseStep(s: string, k: nat)
    requires k < |s|
    ensures Charwise(s[k..]) == Image(s[k]) + Charwise(s[k + 1..])
  {
    assert s[k..][1..] == s[k + 1..];
  }
}
