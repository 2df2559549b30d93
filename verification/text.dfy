/**
 The string normalisation the script applies before every comparison:
 `toLowerCase()` on a label's `innerText` or `innerHTML`. It is modelled as
 ASCII lower-casing; full Unicode case mapping is not part of this model.
 */
module Text {

  /** An ASCII capital letter. */
  predicate IsUpper(c: char) {
    'A' <= c <= 'Z'
  }

  /** True iff no character of `s` is an ASCII capital letter. */
  predicate IsLower(s: string) {
    forall i :: 0 <= i < |s| ==> !IsUpper(s[i])
  }

  /** Lower-cases one character; anything but a capital letter is kept. */
  function LowerChar(c: char): (r: char)
    ensures !IsUpper(r)
    ensures !IsUpper(c) ==> r == c
    ensures IsUpper(c) ==> r != c && r as int - c as int == 'a' as int - 'A' as int
  {
    if IsUpper(c) then (c as int - 'A' as int + 'a' as int) as char else c
  }

  /** `String.prototype.toLowerCase`, character by character. */
  function ToLower(s: string): (r: string)
    ensures |r| == |s|
    ensures forall i :: 0 <= i < |s| ==> r[i] == LowerChar(s[i])
    ensures IsLower(r)
  {
    if s == [] then [] else [LowerChar(s[0])] + ToLower(s[1..])
  }

  /** Lower-casing leaves an already lower-case string alone. */
  lemma {:induction false} ToLowerKeepsLower(s: string)
    requires IsLower(s)
    ensures ToLower(s) == s
  {
    if s != [] {
      assert IsLower(s[1..]) by {
        forall i | 0 <= i < |s[1..]| ensures !IsUpper(s[1..][i]) {
          assert s[1..][i] == s[i + 1];
        }
      }
      ToLowerKeepsLower(s[1..]);
      assert s == [s[0]] + s[1..];
    }
  }

  /** Lower-casing twice is lower-casing once. */
  lemma ToLowerIdempotent(s: string)
    ensures ToLower(ToLower(s)) == ToLower(s)
  {
    ToLowerKeepsLower(ToLower(s));
  }

  /** A string holding a capital letter is never the result of lower-casing. */
  lemma UpperNeverLowered(s: string, t: string)
    requires exists j :: 0 <= j < |t| && IsUpper(t[j])
    ensures ToLower(s) != t
  {
    var j :| 0 <= j < |t| && IsUpper(t[j]);
    if |s| == |t| {
      assert ToLower(s)[j] != t[j];
    }
  }
}
