/** The label normaliser: `cleanLabel`, written identically in GraphResult.tsx
    and CollapsibleNode.tsx and modelled once here, and `getArrayIndexLabel`.
    Strings are sequences of Unicode scalar values (one `char` each; a
    UTF-16 surrogate pair is one `char`). */
module Labels {
  import opened Optional
  import opened Sequences

  // ---------------------------------------------------------------------------
  // Character classes used by the regular expressions and by `trim`
  // ---------------------------------------------------------------------------

  /** `\d` of a JavaScript regular expression (ASCII digits only). */
  predicate IsDigit(c: char) {
    '0' <= c <= '9'
  }

  predicate AllDigits(s: string) {
    forall i :: 0 <= i < |s| ==> IsDigit(s[i])
  }

  /** The characters `.` of a JavaScript regular expression does not match. */
  predicate IsLineTerminator(c: char) {
    c == '\n' || c == '\r' || c == '\U{2028}' || c == '\U{2029}'
  }

  predicate NoLineTerminator(s: string) {
    forall i :: 0 <= i < |s| ==> !IsLineTerminator(s[i])
  }

  /** The ECMAScript WhiteSpace and LineTerminator code points, which
      `String.prototype.trim` removes from both ends. */
  predicate IsJsWhitespace(c: char) {
    || c == '\t' || c == '\n' || c == '\U{B}' || c == '\U{C}' || c == '\r' || c == ' '
    || c == '\U{A0}' || c == '\U{1680}' || ('\U{2000}' <= c <= '\U{200A}')
    || c == '\U{2028}' || c == '\U{2029}' || c == '\U{202F}' || c == '\U{205F}'
    || c == '\U{3000}' || c == '\U{FEFF}'
  }

  // ---------------------------------------------------------------------------
  // String primitives of `cleanLabel`
  // ---------------------------------------------------------------------------

  /** `s.endsWith(suffix)` */
  predicate EndsWith(s: string, suffix: string) {
    |suffix| <= |s| && s[|s| - |suffix|..] == suffix
  }

  predicate OccursAt(s: string, pat: string, i: nat) {
    i + |pat| <= |s| && s[i..i + |pat|] == pat
  }

  /** `s.indexOf(pat, from)`: the first position at or after `from` where `pat` occurs. */
  function IndexOf(s: string, pat: string, from: nat): (r: Option<nat>)
    ensures r.Some? ==> from <= r.value && OccursAt(s, pat, r.value)
    ensures r.Some? ==> forall j :: from <= j < r.value ==> !OccursAt(s, pat, j)
    ensures r.None? ==> forall j :: from <= j ==> !OccursAt(s, pat, j)
    decreases |s| - from
  {
    if |s| < from + |pat| then None
    else if s[from..from + |pat|] == pat then Some(from)
    else IndexOf(s, pat, from + 1)
  }

  /** `s.split(c).pop()` when `c` occurs in `s`: the text after the last `c`. */
  function AfterLast(s: string, c: char): (r: string)
    ensures |r| <= |s| && r == s[|s| - |r|..]
    ensures c !in r
    ensures c in s ==> |r| < |s| && s[|s| - |r| - 1] == c
    ensures c !in s ==> r == s
  {
    if s == [] then []
    else if s[|s| - 1] == c then []
    else
      var r := AfterLast(s[..|s| - 1], c);
      assert s == s[..|s| - 1] + [s[|s| - 1]];
      r + [s[|s| - 1]]
  }

  /** Drops leading `IsJsWhitespace` characters. */
  function TrimStart(s: string): (r: string)
    ensures |r| <= |s| && r == s[|s| - |r|..]
    ensures forall i :: 0 <= i < |s| - |r| ==> IsJsWhitespace(s[i])
    ensures r == [] || !IsJsWhitespace(r[0])
  {
    if s != [] && IsJsWhitespace(s[0]) then TrimStart(s[1..]) else s
  }

  /** Drops trailing `IsJsWhitespace` characters. */
  function TrimEnd(s: string): (r: string)
    ensures |r| <= |s| && r == s[..|r|]
    ensures forall i :: |r| <= i < |s| ==> IsJsWhitespace(s[i])
    ensures r == [] || !IsJsWhitespace(r[|r| - 1])
  {
    if s != [] && IsJsWhitespace(s[|s| - 1]) then TrimEnd(s[..|s| - 1]) else s
  }

  /** `s.trim()` */
  function Trim(s: string): (r: string)
    ensures SubseqOf(r, s)
    ensures r == [] || (!IsJsWhitespace(r[0]) && !IsJsWhitespace(r[|r| - 1]))
  {
    var t := TrimStart(s);
    SuffixSubseq(s, |s| - |t|);
    var r := TrimEnd(t);
    PrefixSubseq(t, |r|);
    SubseqTrans(r, t, s);
    r
  }

  // ---------------------------------------------------------------------------
  // The global replace of /\[\d+\]/g
  // ---------------------------------------------------------------------------

  /** Length of the run of digits that starts `s`. */
  function LeadingDigits(s: string): (n: nat)
    ensures n <= |s| && AllDigits(s[..n])
    ensures n < |s| ==> !IsDigit(s[n])
  {
    if s == [] || !IsDigit(s[0]) then 0 else 1 + LeadingDigits(s[1..])
  }

  /** Length of the match of /\[\d+\]/ that starts `s`, or 0 when none does. */
  function IndexTokenAt(s: string): (n: nat)
    ensures n == 0 || (3 <= n <= |s| && s[0] == '[' && AllDigits(s[1..n - 1]) && s[n - 1] == ']')
    ensures n == 0 ==> forall m :: 2 <= m < |s| && s[0] == '[' && s[m] == ']' ==> !AllDigits(s[1..m])
  {
    if s == [] || s[0] != '[' then 0
    else
      var d := LeadingDigits(s[1..]);
      assert s[1..][..d] == s[1..d + 1];
      if 1 <= d && 1 + d < |s| && s[1 + d] == ']' then d + 2
      else 0
  }

  /** `s.replace(/\[\d+\]/g, "")`: one left-to-right pass that deletes every
      non-overlapping `[digits]` match. */
  function StripIndexes(s: string): string
    decreases |s|
  {
    if s == [] then []
    else
      var n := IndexTokenAt(s);
      if n == 0 then [s[0]] + StripIndexes(s[1..]) else StripIndexes(s[n..])
  }

  /** The text `[` digits `]`. */
  function IndexToken(digits: string): string {
    "[" + digits + "]"
  }

  // ---------------------------------------------------------------------------
  // cleanLabel
  // ---------------------------------------------------------------------------

  /** `if (s.includes(c)) s = s.split(c).pop()`: the text after the last `c`,
      or all of `s` when it holds no `c`. */
  function KeepAfterLast(s: string, c: char): (r: string)
    ensures c !in r && SubseqOf(r, s)
  {
    var r := if c in s then AfterLast(s, c) else s;
    SuffixSubseq(s, |s| - |r|);
    r
  }

  /** `if (s.endsWith("-value")) s = s.replace("-value", "")` */
  function RemoveValueEnding(s: string): (r: string)
    ensures SubseqOf(r, s)
    ensures |r| == if EndsWith(s, "-value") then |s| - 6 else |s|
    ensures EndsWith(s, "-value") ==> exists i: nat :: (OccursAt(s, "-value", i) &&
      (forall j :: 0 <= j < i ==> !OccursAt(s, "-value", j)) && r == s[..i] + s[i + 6..])
    ensures !EndsWith(s, "-value") ==> r == s
  {
    if EndsWith(s, "-value") then
      assert OccursAt(s, "-value", |s| - 6);
      var i := IndexOf(s, "-value", 0).value;
      CutSubseq(s, i, i + 6);
      s[..i] + s[i + 6..]
    else
      SubseqRefl(s);
      s
  }

  /** `if (s.endsWith("-")) s = s.slice(0, -1)` */
  function DropTrailingDash(s: string): (r: string)
    ensures SubseqOf(r, s)
    ensures |r| == if EndsWith(s, "-") then |s| - 1 else |s|
  {
    var r := if EndsWith(s, "-") then s[..|s| - 1] else s;
    PrefixSubseq(s, |r|);
    assert s[..|r|] == r;
    r
  }

  /** `cleanLabel`: keep what follows the last `=`; on a `-value` ending remove
      the first `-value`; drop one trailing `-`; keep what follows the last `/`,
      then the last `.`; delete every `[digits]`; trim. */
  function CleanLabel(raw: string): string {
    var s1 := KeepAfterLast(raw, '=');
    var s2 := RemoveValueEnding(s1);
    var s3 := DropTrailingDash(s2);
    var s4 := KeepAfterLast(s3, '/');
    var s5 := KeepAfterLast(s4, '.');
    Trim(StripIndexes(s5))
  }

  // ---------------------------------------------------------------------------
  // getArrayIndexLabel and the /\[\d+\]$/ test
  // ---------------------------------------------------------------------------

  /** `s` ends with `[` digits `]` and that `[` is at position `k`. */
  predicate IndexSuffixAt(s: string, k: nat) {
    k + 2 < |s| && s[k] == '[' && s[|s| - 1] == ']' && AllDigits(s[k + 1..|s| - 1])
  }

  /** Length of the run of digits that ends `s`. */
  function TrailingDigits(s: string): (n: nat)
    ensures n <= |s| && AllDigits(s[|s| - n..])
    ensures n < |s| ==> !IsDigit(s[|s| - n - 1])
  {
    if s == [] || !IsDigit(s[|s| - 1]) then 0 else 1 + TrailingDigits(s[..|s| - 1])
  }

  /** Where the `[digits]` ending of `s` starts, if `s` has one. */
  function IndexSuffixStart(s: string): (k: Option<nat>)
    ensures k.Some? ==> IndexSuffixAt(s, k.value)
  {
    if |s| < 3 || s[|s| - 1] != ']' then None
    else
      var d := TrailingDigits(s[..|s| - 1]);
      if 1 <= d && d + 2 <= |s| && s[|s| - 2 - d] == '[' then Some(|s| - 2 - d) else None
  }

  /** `/\[\d+\]$/.test(s)`: the id of an array element. */
  predicate EndsWithIndex(s: string) {
    IndexSuffixStart(s).Some?
  }

  function DigitValue(c: char): nat
    requires IsDigit(c)
  {
    (c as int) - ('0' as int)
  }

  /** `parseInt(ds, 10)` of a string of digits (as an unbounded number). */
  function DecimalValue(ds: string): nat
    requires AllDigits(ds)
  {
    if ds == [] then 0 else 10 * DecimalValue(ds[..|ds| - 1]) + DigitValue(ds[|ds| - 1])
  }

  function DigitChar(d: nat): (c: char)
    requires d < 10
    ensures IsDigit(c) && DigitValue(c) == d
  {
    ('0' as int + d) as char
  }

  /** The decimal text of a number, as a template literal writes it. */
  function NatToDecimal(n: nat): (r: string)
    ensures r != [] && AllDigits(r)
    ensures 1 < |r| ==> r[0] != '0'
  {
    if n < 10 then [DigitChar(n)] else NatToDecimal(n / 10) + [DigitChar(n % 10)]
  }

  /** The text `getArrayIndexLabel` builds from `prefix[digits]`: the cleaned
      prefix, a space and the 1-based index. */
  function IndexedLabel(prefix: string, digits: string): (r: string)
    requires AllDigits(digits)
    ensures r != [] && ' ' in r
  {
    var text := CleanLabel(prefix) + " " + NatToDecimal(DecimalValue(digits) + 1);
    assert text[|CleanLabel(prefix)|] == ' ';
    text
  }

  /** `getArrayIndexLabel`: for `prefix[digits]` (matched by /^(.*)\[(\d+)\]$/,
      so the prefix holds no line terminator) the `IndexedLabel`; `None` for
      every other label. */
  function ArrayIndexLabel(raw: string): (r: Option<string>)
    ensures r.Some? ==> r.value != [] && ' ' in r.value
  {
    match IndexSuffixStart(raw)
    case None => None
    case Some(k) =>
      if NoLineTerminator(raw[..k]) then Some(IndexedLabel(raw[..k], raw[k + 1..|raw| - 1]))
      else None
  }
}
