/**
 * Text as the browser's string primitives see it: a sequence of UTF-16 code
 * units. `length`, `s[0]` and `s.at(-1)` all count and index code units, so a
 * character outside the Basic Multilingual Plane is two units here, exactly as
 * in the game's script.
 */
module Text {

  /** One UTF-16 code unit. */
  newtype CodeUnit = x: int | 0 <= x < 0x1_0000

  /** A JavaScript string value. */
  type JsString = seq<CodeUnit>

  /**
   * The code units `String.prototype.trim` strips: the WhiteSpace and
   * LineTerminator productions of ECMA-262 (sections 12.2 and 12.3), with the
   * space separators (category Zs) of the Unicode database spelled out.
   */
  predicate IsTrimmable(c: CodeUnit) {
    || c == 0x0009 || c == 0x000A || c == 0x000B || c == 0x000C || c == 0x000D
    || c == 0x0020 || c == 0x00A0 || c == 0x1680
    || (0x2000 <= c <= 0x200A)
    || c == 0x2028 || c == 0x2029 || c == 0x202F || c == 0x205F
    || c == 0x3000 || c == 0xFEFF
  }

  /** Every unit of `s` is one that trimming strips. */
  predicate AllTrimmable(s: JsString) {
    forall i :: 0 <= i < |s| ==> IsTrimmable(s[i])
  }

  /** Every unit at a position in `lo..hi` is trimmable. */
  predicate TrimmableBetween(s: JsString, lo: nat, hi: nat) {
    forall i :: lo <= i < hi && i < |s| ==> IsTrimmable(s[i])
  }

  /** The first position at or after `i` that holds a kept unit (the end when there is none). */
  function SkipLeading(s: JsString, i: nat): (n: nat)
    requires i <= |s|
    ensures i <= n <= |s|
    ensures TrimmableBetween(s, i, n)
    ensures n < |s| ==> !IsTrimmable(s[n])
    decreases |s| - i
  {
    if i < |s| && IsTrimmable(s[i]) then SkipLeading(s, i + 1) else i
  }

  /** One past the last position before `j`, and not before `lo`, that holds a kept unit (`lo` when there is none). */
  function SkipTrailing(s: JsString, lo: nat, j: nat): (m: nat)
    requires lo <= j <= |s|
    ensures lo <= m <= j
    ensures TrimmableBetween(s, m, j)
    ensures m > lo ==> !IsTrimmable(s[m - 1])
    decreases j - lo
  {
    if j > lo && IsTrimmable(s[j - 1]) then SkipTrailing(s, lo, j - 1) else j
  }

  /**
   * `String.prototype.trim`: the result is the infix of `s` left after cutting
   * a trimmable prefix and a trimmable suffix, and it neither starts nor ends
   * with a trimmable unit.
   */
  function Trim(s: JsString): (r: JsString)
    ensures |r| <= |s|
    ensures exists a :: 0 <= a <= |s| - |r| && r == s[a..a + |r|]
                        && TrimmableBetween(s, 0, a) && TrimmableBetween(s, a + |r|, |s|)
    ensures IsTrimmed(r)
  {
    var a := SkipLeading(s, 0);
    var b := SkipTrailing(s, a, |s|);
    s[a..b]
  }

  /** Text with nothing for `trim` to remove: it neither starts nor ends with a trimmable unit. */
  predicate IsTrimmed(s: JsString) {
    s == [] || (!IsTrimmable(s[0]) && !IsTrimmable(s[|s| - 1]))
  }

  /** Trimming leaves text alone exactly when it is already trimmed. */
  lemma TrimFixesExactlyTrimmed(s: JsString)
    ensures Trim(s) == s <==> IsTrimmed(s)
  {
  }

  /** A name or word that JavaScript treats as blank: `!x.trim()`. */
  predicate IsBlank(s: JsString) {
    Trim(s) == []
  }

  /** Trimming twice is trimming once. */
  lemma TrimIdempotent(s: JsString)
    ensures Trim(Trim(s)) == Trim(s)
  {
  }

  /** Text is blank exactly when every unit of it is trimmable. */
  lemma BlankIffAllTrimmable(s: JsString)
    ensures IsBlank(s) <==> AllTrimmable(s)
  {
  }
}
