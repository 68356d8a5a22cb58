/** ASCII letter case, as used when comparing file extensions.

    Rust's `str::to_uppercase` applies the full Unicode case mapping. This
    module maps only `a`..`z` and leaves every other character alone. The
    verdict of the extension check can differ only for the few non-ASCII
    characters whose Unicode upper case is made of ASCII letters (the dotless
    `ı` becomes `I`, the long `ſ` becomes `S`, the ligature `ﬀ` becomes `FF`,
    and a handful more); the model rejects those spellings where Rust
    accepts them, so it under-approximates the accepted set. */
module Ascii {

  predicate IsLower(c: char) {
    'a' <= c <= 'z'
  }

  predicate IsUpper(c: char) {
    'A' <= c <= 'Z'
  }

  /** The upper-case form of one character. */
  function UpperChar(c: char): (u: char)
    ensures !IsLower(u)
    ensures IsLower(c) ==> IsUpper(u) && u as int == c as int - 32
    ensures !IsLower(c) ==> u == c
  {
    if IsLower(c) then (c as int - 32) as char else c
  }

  /** The lower-case form of one character. */
  function LowerChar(c: char): (l: char)
    ensures !IsUpper(l)
    ensures IsUpper(c) ==> IsLower(l) && l as int == c as int + 32
    ensures !IsUpper(c) ==> l == c
  {
    if IsUpper(c) then (c as int + 32) as char else c
  }

  /** Rust's `to_uppercase`, restricted to ASCII letters. */
  function ToUppercase(s: string): (r: string)
    ensures |r| == |s|
    ensures forall i :: 0 <= i < |s| ==> r[i] == UpperChar(s[i])
    ensures forall i :: 0 <= i < |r| ==> !IsLower(r[i])
    ensures SameIgnoringCase(r, s)
  {
    seq(|s|, i requires 0 <= i < |s| => UpperChar(s[i]))
  }

  /** `a` and `b` differ at most in the case of their ASCII letters, stated
      through lower case so that it is independent of `ToUppercase`. */
  predicate SameIgnoringCase(a: string, b: string) {
    |a| == |b| && forall i :: 0 <= i < |a| ==> LowerChar(a[i]) == LowerChar(b[i])
  }

  /** Two characters have the same upper case exactly when they have the same lower case. */
  lemma UpperAgreesWithLower(c: char, d: char)
    ensures UpperChar(c) == UpperChar(d) <==> LowerChar(c) == LowerChar(d)
  {
  }

  /** Upper-casing identifies exactly the strings that differ only in letter case. */
  lemma ToUppercaseIdentifiesCaseVariants(a: string, b: string)
    ensures ToUppercase(a) == ToUppercase(b) <==> SameIgnoringCase(a, b)
  {
    if ToUppercase(a) == ToUppercase(b) {
      forall i | 0 <= i < |a|
        ensures LowerChar(a[i]) == LowerChar(b[i])
      {
        assert ToUppercase(a)[i] == ToUppercase(b)[i];
        UpperAgreesWithLower(a[i], b[i]);
      }
    }
    if SameIgnoringCase(a, b) {
      forall i | 0 <= i < |a|
        ensures ToUppercase(a)[i] == ToUppercase(b)[i]
      {
        UpperAgreesWithLower(a[i], b[i]);
      }
    }
  }

  /** Upper-casing twice changes nothing more. */
  lemma ToUppercaseIdempotent(s: string)
    ensures ToUppercase(ToUppercase(s)) == ToUppercase(s)
  {
  }
}
