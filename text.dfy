/**
 * The two string tests the rule layer relies on: Java's `String.trim()`, used by the
 * search methods to recognise a blank keyword, and the not-blank field constraint,
 * which the validation framework decides as `trim().length() > 0`.
 */
module Text {

  /** `trim()` strips every character whose code is at most U+0020. */
  predicate Trimmable(c: char) {
    c <= ' '
  }

  /** No character of `s` survives `trim()`. */
  predicate IsBlank(s: string) {
    forall i :: 0 <= i < |s| ==> Trimmable(s[i])
  }

  /** Drop the leading trimmable characters. */
  function TrimStart(s: string): (r: string)
    ensures |r| <= |s| && r == s[|s| - |r|..]
    ensures r == [] || !Trimmable(r[0])
    ensures IsBlank(s[..|s| - |r|])
  {
    if |s| > 0 && Trimmable(s[0]) then
      var r := TrimStart(s[1..]);
      assert s[1..][..|s[1..]| - |r|] == s[1..|s| - |r|];
      assert s[..|s| - |r|] == [s[0]] + s[1..|s| - |r|];
      r
    else
      s
  }

  /** Drop the trailing trimmable characters. */
  function TrimEnd(s: string): (r: string)
    ensures |r| <= |s| && r == s[..|r|]
    ensures r == [] || !Trimmable(r[|r| - 1])
    ensures IsBlank(s[|r|..])
  {
    if |s| > 0 && Trimmable(s[|s| - 1]) then
      var r := TrimEnd(s[..|s| - 1]);
      assert s[..|s| - 1][|r|..] == s[|r|..|s| - 1];
      assert s[|r|..] == s[|r|..|s| - 1] + [s[|s| - 1]];
      r
    else
      s
  }

  /** Java's `String.trim()`. */
  function Trim(s: string): string {
    TrimEnd(TrimStart(s))
  }

  /** `trim()` leaves the empty string exactly when every character is trimmable. */
  lemma {:induction false} TrimEmptyIffBlank(s: string)
    ensures Trim(s) == [] <==> IsBlank(s)
  {
    var t := TrimStart(s);
    if Trim(s) == [] {
      // TrimEnd(t) is empty, so t is blank; t cannot start with a kept character
      assert IsBlank(t[|TrimEnd(t)|..]);
      assert t == [];
      assert s[..|s| - |t|] == s;
    } else {
      var r := Trim(s);
      // r is a slice of s that starts with a character trim() keeps
      assert r == t[..|r|];
      assert r[0] == t[0] == s[|s| - |t|];
      assert !Trimmable(s[|s| - |t|]);
    }
  }

  /** The not-blank constraint: something is left after `trim()`. */
  predicate NotBlank(s: string)
  {
    Trim(s) != []
  }

  /** A not-blank string holds a character above U+0020, and conversely. */
  lemma NotBlankMeaning(s: string)
    ensures NotBlank(s) <==> exists i :: 0 <= i < |s| && !Trimmable(s[i])
  {
    TrimEmptyIffBlank(s);
  }
}
