/** `escape_text`: makes a field value safe to use as a path component by
    replacing every character outside the class [a-zA-Z0-9-_] with '_'. */
module Escape {

  /** Membership in the class [a-zA-Z0-9-_]: three ASCII ranges plus the
      literal characters '-' and '_'. */
  predicate IsSafeChar(c: char) {
    'a' <= c <= 'z' || 'A' <= c <= 'Z' || '0' <= c <= '9' || c == '-' || c == '_'
  }

  predicate IsSafe(s: string) {
    forall i :: 0 <= i < |s| ==> IsSafeChar(s[i])
  }

  function EscapeChar(c: char): char {
    if IsSafeChar(c) then c else '_'
  }

  function EscapeText(txt: string): (r: string)
    ensures |r| == |txt|
    ensures IsSafe(r)
    ensures forall i :: 0 <= i < |txt| && IsSafeChar(txt[i]) ==> r[i] == txt[i]
    ensures forall i :: 0 <= i < |txt| && !IsSafeChar(txt[i]) ==> r[i] == '_'
    decreases |txt|
  {
    if txt == [] then [] else [EscapeChar(txt[0])] + EscapeText(txt[1..])
  }

  /** Escaping changes nothing exactly when every character is already safe. */
  lemma EscapeTextFixedIff(txt: string)
    ensures EscapeText(txt) == txt <==> IsSafe(txt)
  {
    var r := EscapeText(txt);
    if IsSafe(txt) {
      assert forall i :: 0 <= i < |txt| ==> r[i] == txt[i];
    }
    if r == txt {
      assert forall i :: 0 <= i < |txt| ==> IsSafeChar(r[i]);
    }
  }

  lemma EscapeTextIdempotent(txt: string)
    ensures EscapeText(EscapeText(txt)) == EscapeText(txt)
  {
    EscapeTextFixedIff(EscapeText(txt));
  }
}
