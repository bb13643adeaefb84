/** What `cleanLabel` and `getArrayIndexLabel` guarantee, and the examples
    that pin down their less obvious behaviour. */
module LabelProperties {
  import opened Optional
  import opened Sequences
  import opened Labels

  // ---------------------------------------------------------------------------
  // The /\[\d+\]/g deletion
  // ---------------------------------------------------------------------------

  /** `trim` keeps one contiguous slice of the text and removes only white
      space, all of it at the two ends. */
  lemma {:induction false} TrimIsSlice(s: string) returns (i: nat)
    ensures i + |Trim(s)| <= |s| && Trim(s) == s[i..i + |Trim(s)|]
    ensures forall j :: 0 <= j < i ==> IsJsWhitespace(s[j])
    ensures forall j :: i + |Trim(s)| <= j < |s| ==> IsJsWhitespace(s[j])
  {
    var t := TrimStart(s);
    i := |s| - |t|;
    TrimParts(s);
    SliceOfSuffix(s, t, TrimEnd(t), i, IsJsWhitespace);
  }

  /** `trim` is the end trim of the start trim. */
  lemma TrimParts(s: string)
    ensures Trim(s) == TrimEnd(TrimStart(s))
  {
  }

  /** A prefix `r` of the suffix `t == s[i..]` is the slice of `s` at `i`, and
      what follows `r` in `t` is what follows it in `s`. */
  lemma SliceOfSuffix(s: string, t: string, r: string, i: nat, p: char -> bool)
    requires i <= |s| && t == s[i..] && |r| <= |t| && r == t[..|r|]
    requires forall k :: |r| <= k < |t| ==> p(t[k])
    ensures i + |r| <= |s| && r == s[i..i + |r|]
    ensures forall j :: i + |r| <= j < |s| ==> p(s[j])
  {
    forall j | i + |r| <= j < |s|
      ensures p(s[j])
    {
      assert s[j] == t[j - i];
    }
  }

  /** The guarded `split(c).pop()` keeps the suffix after the last `c`, and
      all of the text when there is no `c`. */
  lemma {:induction false} KeepAfterLastSuffix(s: string, c: char)
    ensures var r := KeepAfterLast(s, c);
      && |r| <= |s| && r == s[|s| - |r|..]
      && (c in s ==> |r| < |s| && s[|s| - |r| - 1] == c)
      && (c !in s ==> r == s)
  {
    if c in s {
      var r := AfterLast(s, c);
      assert KeepAfterLast(s, c) == r;
    } else {
      assert KeepAfterLast(s, c) == s;
    }
  }

  /** `slice(0, -1)` on a trailing `-` deletes exactly that `-`. */
  lemma {:induction false} DropTrailingDashExact(s: string)
    ensures EndsWith(s, "-") ==> DropTrailingDash(s) + "-" == s
    ensures !EndsWith(s, "-") ==> DropTrailingDash(s) == s
  {
    if EndsWith(s, "-") {
      assert s == s[..|s| - 1] + s[|s| - 1..];
    }
  }

  /** Deleting `[digits]` matches only ever deletes characters. */
  lemma {:induction false} StripIndexesSubseq(s: string)
    ensures SubseqOf(StripIndexes(s), s)
    decreases |s|
  {
    if s != [] {
      var n := IndexTokenAt(s);
      if n == 0 {
        StripIndexesSubseq(s[1..]);
        SubseqCons(s[0], StripIndexes(s[1..]), s[1..]);
        assert [s[0]] + s[1..] == s;
      } else {
        StripIndexesSubseq(s[n..]);
        SuffixSubseq(s, n);
        SubseqTrans(StripIndexes(s[n..]), s[n..], s);
      }
    }
  }

  /** Text without a `[` is left alone. */
  lemma {:induction false} StripIndexesNoBracket(s: string)
    requires '[' !in s
    ensures StripIndexes(s) == s
    decreases |s|
  {
    if s != [] {
      assert IndexTokenAt(s) == 0;
      assert '[' !in s[1..];
      StripIndexesNoBracket(s[1..]);
      assert [s[0]] + s[1..] == s;
    }
  }

  /** Text in which no `[digits]` match starts anywhere is left alone: the
      pass deletes matches and nothing else, so `a[b` is kept. */
  lemma {:induction false} StripIndexesNoToken(s: string)
    requires forall i :: 0 <= i < |s| ==> IndexTokenAt(s[i..]) == 0
    ensures StripIndexes(s) == s
    decreases |s|
  {
    if s != [] {
      assert s[0..] == s;
      forall i | 0 <= i < |s[1..]|
        ensures IndexTokenAt(s[1..][i..]) == 0
      {
        assert s[1..][i..] == s[i + 1..];
      }
      StripIndexesNoToken(s[1..]);
      assert [s[0]] + s[1..] == s;
    }
  }

  lemma {:induction false} LeadingDigitsConcat(a: string, b: string)
    ensures LeadingDigits(a + b) ==
      if LeadingDigits(a) < |a| then LeadingDigits(a) else |a| + LeadingDigits(b)
    decreases |a|
  {
    if a == [] {
      assert a + b == b;
    } else if IsDigit(a[0]) {
      assert (a + b)[1..] == a[1..] + b;
      LeadingDigitsConcat(a[1..], b);
    }
  }

  /** A match that starts inside `x` cannot run on into a following `[`. */
  lemma {:induction false} IndexTokenAtPrefix(x: string, rest: string)
    requires x != [] && rest != [] && rest[0] == '['
    ensures IndexTokenAt(x + rest) == IndexTokenAt(x)
  {
    var s := x + rest;
    if x[0] == '[' {
      assert s[1..] == x[1..] + rest;
      LeadingDigitsConcat(x[1..], rest);
      var dx := LeadingDigits(x[1..]);
      if dx < |x| - 1 {
        assert s[1 + dx] == x[1 + dx];
      } else {
        assert LeadingDigits(rest) == 0;
        assert s[|x|] == '[';
      }
    }
  }

  /** A `[digits]` token at the very start is deleted. */
  lemma {:induction false} StripIndexesTokenFirst(digits: string, y: string)
    requires digits != [] && AllDigits(digits)
    ensures StripIndexes(IndexToken(digits) + y) == StripIndexes(y)
  {
    var s := IndexToken(digits) + y;
    assert s[1..] == digits + ("]" + y);
    LeadingDigitsConcat(digits, "]" + y);
    assert IndexTokenAt(s) == |digits| + 2;
    assert s[|digits| + 2..] == y;
  }

  /** The pass is global and left to right: a `[digits]` token in the middle
      of the text is deleted, and what lies on either side of it is cleaned
      independently. */
  lemma {:induction false} StripIndexesSplit(x: string, digits: string, y: string)
    requires digits != [] && AllDigits(digits)
    ensures StripIndexes(x + IndexToken(digits) + y) == StripIndexes(x) + StripIndexes(y)
    decreases |x|
  {
    var ty := IndexToken(digits) + y;
    var s := x + IndexToken(digits) + y;
    assert s == x + ty;
    if x == [] {
      assert s == ty;
      StripIndexesTokenFirst(digits, y);
    } else {
      IndexTokenAtPrefix(x, ty);
      var n := IndexTokenAt(x);
      if n == 0 {
        assert s[1..] == x[1..] + IndexToken(digits) + y;
        StripIndexesSplit(x[1..], digits, y);
      } else {
        assert s[n..] == x[n..] + IndexToken(digits) + y;
        StripIndexesSplit(x[n..], digits, y);
      }
    }
  }

  // ---------------------------------------------------------------------------
  // cleanLabel
  // ---------------------------------------------------------------------------

  /** The steps between the `=` cut and the `[digits]` deletion only delete
      characters. */
  lemma {:induction false} MiddleStepsSubseq(s1: string)
    ensures var s3 := DropTrailingDash(RemoveValueEnding(s1));
      SubseqOf(KeepAfterLast(KeepAfterLast(s3, '/'), '.'), s1)
  {
    var s2 := RemoveValueEnding(s1);
    var s3 := DropTrailingDash(s2);
    var s4 := KeepAfterLast(s3, '/');
    var s5 := KeepAfterLast(s4, '.');
    SubseqTrans(s5, s4, s3);
    SubseqTrans(s5, s3, s2);
    SubseqTrans(s5, s2, s1);
  }

  /** `cleanLabel` only deletes characters, so it never lengthens its input. */
  lemma {:induction false} CleanLabelSubseq(raw: string)
    ensures SubseqOf(CleanLabel(raw), raw) && |CleanLabel(raw)| <= |raw|
  {
    var s1 := KeepAfterLast(raw, '=');
    var s5 := KeepAfterLast(KeepAfterLast(DropTrailingDash(RemoveValueEnding(s1)), '/'), '.');
    MiddleStepsSubseq(s1);
    var s6 := StripIndexes(s5);
    StripIndexesSubseq(s5);
    var r := Trim(s6);
    SubseqTrans(r, s6, s5);
    SubseqTrans(r, s5, s1);
    SubseqTrans(r, s1, raw);
    SubseqLength(r, raw);
  }

  lemma {:induction false} AbsentFromSubseq(a: string, b: string, c: char)
    requires SubseqOf(a, b) && c !in b
    ensures c !in a
  {
    if c in a {
      SubseqMember(a, b, c);
    }
  }

  /** The last two steps of `cleanLabel` introduce no character. */
  lemma {:induction false} LastStepsAbsent(s5: string, c: char)
    requires c !in s5
    ensures c !in Trim(StripIndexes(s5))
  {
    var s6 := StripIndexes(s5);
    StripIndexesSubseq(s5);
    AbsentFromSubseq(s6, s5, c);
    AbsentFromSubseq(Trim(s6), s6, c);
  }

  /** No `=` survives `cleanLabel`. */
  lemma {:induction false} CleanLabelNoEquals(raw: string)
    ensures '=' !in CleanLabel(raw)
  {
    var s1 := KeepAfterLast(raw, '=');
    var s5 := KeepAfterLast(KeepAfterLast(DropTrailingDash(RemoveValueEnding(s1)), '/'), '.');
    MiddleStepsSubseq(s1);
    AbsentFromSubseq(s5, s1, '=');
    LastStepsAbsent(s5, '=');
  }

  /** No `/` or `.` survives `cleanLabel`. */
  lemma {:induction false} CleanLabelNoPathSeparators(raw: string)
    ensures '/' !in CleanLabel(raw) && '.' !in CleanLabel(raw)
  {
    var s4 := KeepAfterLast(DropTrailingDash(RemoveValueEnding(KeepAfterLast(raw, '='))), '/');
    var s5 := KeepAfterLast(s4, '.');
    AbsentFromSubseq(s5, s4, '/');
    LastStepsAbsent(s5, '/');
    LastStepsAbsent(s5, '.');
  }

  /** `cleanLabel` is total, only deletes characters (so never lengthens its
      input), removes every `=`, `/` and `.`, and leaves no whitespace at
      either end. */
  lemma {:induction false} CleanLabelShape(raw: string)
    ensures var r := CleanLabel(raw);
      && SubseqOf(r, raw) && |r| <= |raw|
      && '=' !in r && '/' !in r && '.' !in r
      && (r == [] || (!IsJsWhitespace(r[0]) && !IsJsWhitespace(r[|r| - 1])))
  {
    CleanLabelSubseq(raw);
    CleanLabelNoEquals(raw);
    CleanLabelNoPathSeparators(raw);
  }

  lemma {:induction false} TrimUntouched(t: string)
    requires t == [] || (!IsJsWhitespace(t[0]) && !IsJsWhitespace(t[|t| - 1]))
    ensures Trim(t) == t
  {
    assert TrimStart(t) == t;
  }

  /** Without `=`, `/`, `.` and the two endings only the last two steps act. */
  lemma {:induction false} CleanLabelWithoutMarkers(raw: string)
    requires '=' !in raw && '/' !in raw && '.' !in raw
    requires !EndsWith(raw, "-value") && !EndsWith(raw, "-")
    ensures CleanLabel(raw) == Trim(StripIndexes(raw))
  {
  }

  /** A plain name, already trimmed and free of every marker, is its own label. */
  lemma {:induction false} CleanLabelPlain(raw: string)
    requires '=' !in raw && '/' !in raw && '.' !in raw && '[' !in raw
    requires !EndsWith(raw, "-value") && !EndsWith(raw, "-")
    requires raw == [] || (!IsJsWhitespace(raw[0]) && !IsJsWhitespace(raw[|raw| - 1]))
    ensures CleanLabel(raw) == raw
  {
    StripIndexesNoBracket(raw);
    TrimUntouched(raw);
  }

  /** On a `-value` ending with no `=`, the `-value` removal and the last two
      steps are all that act, when what remains has no other marker. */
  lemma {:induction false} CleanLabelValueEnding(raw: string)
    requires '=' !in raw && EndsWith(raw, "-value")
    requires var t := RemoveValueEnding(raw); '/' !in t && '.' !in t && !EndsWith(t, "-")
    ensures CleanLabel(raw) == Trim(StripIndexes(RemoveValueEnding(raw)))
  {
  }

  // Facts about particular strings, each checked on its own.

  lemma FactsFirstValueIndex(s: string)
    requires s == "a-value-b-value"
    ensures IndexOf(s, "-value", 0) == Some(1)
  {
    assert "-value"[0] == '-' && s[0..6][0] == 'a';
    assert s[1..7] == "-value";
    assert IndexOf(s, "-value", 1) == Some(1);
  }

  lemma FactsFirstValue(s: string, t: string)
    requires s == "a-value-b-value" && t == "a-b-value"
    ensures '=' !in s && EndsWith(s, "-value") && RemoveValueEnding(s) == t
  {
    FactsFirstValueIndex(s);
    assert s[..1] + s[7..] == t;
  }

  lemma FactsFirstValueRest(t: string)
    requires t == "a-b-value"
    ensures '=' !in t && '/' !in t && '.' !in t && '[' !in t && !EndsWith(t, "-")
    ensures !IsJsWhitespace(t[0]) && !IsJsWhitespace(t[|t| - 1])
  {
  }

  /** The `-value` step removes the FIRST `-value`, which need not be the
      ending that triggered it. */
  lemma CleanLabelRemovesFirstValue(s: string, t: string)
    requires s == "a-value-b-value" && t == "a-b-value"
    ensures CleanLabel(s) == t
  {
    FactsFirstValue(s, t);
    FactsFirstValueRest(t);
    CleanLabelValueEnding(s);
    StripIndexesNoBracket(t);
    TrimUntouched(t);
  }

  lemma FactsTrailingSpaceMarkers(v: string)
    requires v == "foo-value "
    ensures '=' !in v && '/' !in v && '.' !in v && '[' !in v
    ensures !EndsWith(v, "-value") && !EndsWith(v, "-")
  {
  }

  lemma FactsTrailingSpaceTrim(v: string, w: string)
    requires v == "foo-value " && w == "foo-value"
    ensures Trim(v) == w
  {
    assert !IsJsWhitespace(v[0]);
    assert TrimStart(v) == v;
    assert IsJsWhitespace(v[|v| - 1]);
    assert v[..|v| - 1] == w;
    assert !IsJsWhitespace(w[|w| - 1]);
    assert TrimEnd(w) == w;
  }

  lemma FactsValueIndex(w: string)
    requires w == "foo-value"
    ensures IndexOf(w, "-value", 0) == Some(3)
  {
    assert "-value"[0] == '-';
    assert w[0..6][0] == 'f' && w[1..7][0] == 'o' && w[2..8][0] == 'o';
    assert w[3..9] == "-value";
    assert IndexOf(w, "-value", 3) == Some(3);
    assert IndexOf(w, "-value", 2) == Some(3);
    assert IndexOf(w, "-value", 1) == Some(3);
  }

  lemma FactsValueEnding(w: string, f: string)
    requires w == "foo-value" && f == "foo"
    ensures '=' !in w && EndsWith(w, "-value") && RemoveValueEnding(w) == f
    ensures '=' !in f && '/' !in f && '.' !in f && '[' !in f
    ensures !EndsWith(f, "-value") && !EndsWith(f, "-")
    ensures !IsJsWhitespace(f[0]) && !IsJsWhitespace(f[|f| - 1])
  {
    FactsValueIndex(w);
    assert w[..3] + w[9..] == f;
  }

  /** Trimming can expose a `-value` ending, so a second pass changes the label. */
  lemma CleanLabelTrimExposesValue(v: string, w: string)
    requires v == "foo-value " && w == "foo-value"
    ensures CleanLabel(v) == w && CleanLabel(w) == "foo"
  {
    var f := "foo";
    FactsTrailingSpaceMarkers(v);
    FactsTrailingSpaceTrim(v, w);
    FactsValueEnding(w, f);
    CleanLabelWithoutMarkers(v);
    StripIndexesNoBracket(v);
    CleanLabelValueEnding(w);
    CleanLabelPlain(f);
  }

  lemma FactsNestedIndexMarkers(s: string)
    requires s == "[[1]2]"
    ensures '=' !in s && '/' !in s && '.' !in s && !EndsWith(s, "-value") && !EndsWith(s, "-")
  {
  }

  lemma FactsNestedIndexSplit(s: string, t: string)
    requires s == "[[1]2]" && t == "[2]"
    ensures s == s[..1] + IndexToken(s[2..3]) + s[4..] && s[2..3] != [] && AllDigits(s[2..3])
    ensures '[' !in s[4..] && s[..1] + s[4..] == t && StripIndexes(s[..1]) == s[..1]
  {
    var open := s[..1];
    assert IndexTokenAt(open) == 0;
    assert open[1..] == [];
  }

  lemma FactsIndexOnly(t: string)
    requires t == "[2]"
    ensures '=' !in t && '/' !in t && '.' !in t && !EndsWith(t, "-value") && !EndsWith(t, "-")
    ensures !IsJsWhitespace(t[0]) && !IsJsWhitespace(t[|t| - 1])
    ensures t == [] + IndexToken(t[1..2]) + [] && t[1..2] != [] && AllDigits(t[1..2])
  {
  }

  lemma CleanLabelNestedIndexOnce(s: string, t: string)
    requires s == "[[1]2]" && t == "[2]"
    ensures CleanLabel(s) == t
  {
    FactsNestedIndexMarkers(s);
    FactsNestedIndexSplit(s, t);
    FactsIndexOnly(t);
    CleanLabelWithoutMarkers(s);
    StripIndexesSplit(s[..1], s[2..3], s[4..]);
    StripIndexesNoBracket(s[4..]);
    TrimUntouched(t);
  }

  lemma CleanLabelIndexOnly(t: string)
    requires t == "[2]"
    ensures CleanLabel(t) == []
  {
    FactsIndexOnly(t);
    CleanLabelWithoutMarkers(t);
    StripIndexesSplit([], t[1..2], []);
  }

  /** A `[digits]` deletion can expose a new `[digits]`, which a second pass
      deletes. */
  lemma CleanLabelNestedIndex(s: string, t: string)
    requires s == "[[1]2]" && t == "[2]"
    ensures CleanLabel(s) == t && CleanLabel(t) == []
  {
    CleanLabelNestedIndexOnce(s, t);
    CleanLabelIndexOnly(t);
  }

  lemma FactsTwoIndexes(s: string)
    requires s == "a[1]b[22]"
    ensures s == "a" + IndexToken("1") + "b[22]" && "b[22]" == "b" + IndexToken("22") + ""
    ensures '[' !in "a" && '[' !in "b"
  {
  }

  /** Every occurrence goes in the one pass: "a[1]b[22]" becomes "ab". */
  lemma StripIndexesEveryOccurrence(s: string)
    requires s == "a[1]b[22]"
    ensures StripIndexes(s) == "ab"
  {
    FactsTwoIndexes(s);
    StripIndexesSplit("a", "1", "b[22]");
    StripIndexesSplit("b", "22", "");
    StripIndexesNoBracket("a");
    StripIndexesNoBracket("b");
  }

  // ---------------------------------------------------------------------------
  // The array-index ending and getArrayIndexLabel
  // ---------------------------------------------------------------------------

  lemma {:induction false} TrailingDigitsExact(t: string, k: nat)
    requires k < |t| && !IsDigit(t[k])
    requires forall i :: k < i < |t| ==> IsDigit(t[i])
    ensures TrailingDigits(t) == |t| - 1 - k
    decreases |t|
  {
    if k < |t| - 1 {
      TrailingDigitsExact(t[..|t| - 1], k);
    }
  }

  /** The `[digits]` ending, when there is one, is found, and at the only
      position where it can start. */
  lemma {:induction false} IndexSuffixStartExact(s: string, k: nat)
    requires IndexSuffixAt(s, k)
    ensures IndexSuffixStart(s) == Some(k)
  {
    var t := s[..|s| - 1];
    forall i | k < i < |t| ensures IsDigit(t[i]) {
      assert s[k + 1..|s| - 1][i - k - 1] == t[i];
    }
    TrailingDigitsExact(t, k);
  }

  /** `/\[\d+\]$/.test(s)` holds exactly when `s` ends with `[` digits `]`. */
  lemma {:induction false} EndsWithIndexIff(s: string)
    ensures EndsWithIndex(s) <==> exists k: nat :: IndexSuffixAt(s, k)
  {
    if k: nat :| IndexSuffixAt(s, k) {
      IndexSuffixStartExact(s, k);
    }
  }

  /** `getArrayIndexLabel` returns a label exactly when the text ends with
      `[` digits `]` and what comes before the last `[` holds no line
      terminator. */
  lemma {:induction false} ArrayIndexLabelIff(raw: string)
    ensures ArrayIndexLabel(raw).Some? <==>
      exists k: nat :: IndexSuffixAt(raw, k) && NoLineTerminator(raw[..k])
  {
    if k: nat :| IndexSuffixAt(raw, k) && NoLineTerminator(raw[..k]) {
      IndexSuffixStartExact(raw, k);
    }
  }

  /** For `prefix[digits]` the label is the cleaned prefix, a space and the
      decimal text of the parsed digits plus one. */
  lemma {:induction false} ArrayIndexLabelAt(raw: string, k: nat)
    requires IndexSuffixAt(raw, k) && NoLineTerminator(raw[..k])
    ensures ArrayIndexLabel(raw) ==
      Some(IndexedLabel(raw[..k], raw[k + 1..|raw| - 1]))
  {
    IndexSuffixStartExact(raw, k);
  }

  /** Printing a number and parsing it back gives the number. */
  lemma {:induction false} DecimalRoundTrip(n: nat)
    ensures DecimalValue(NatToDecimal(n)) == n
    decreases n
  {
    if n >= 10 {
      DecimalRoundTrip(n / 10);
      var r := NatToDecimal(n);
      assert r[..|r| - 1] == NatToDecimal(n / 10);
    }
  }

  /** `parseInt` ignores leading zeros. */
  lemma {:induction false} LeadingZeroIgnored(d: string)
    requires AllDigits(d)
    ensures AllDigits("0" + d) && DecimalValue("0" + d) == DecimalValue(d)
    decreases |d|
  {
    if d != [] {
      var z := "0" + d;
      assert z[..|z| - 1] == "0" + d[..|d| - 1];
      LeadingZeroIgnored(d[..|d| - 1]);
    }
  }

  /** So `a[007]` is shown with the same index as `a[7]`. */
  lemma {:induction false} IndexedLabelLeadingZero(prefix: string, digits: string)
    requires AllDigits(digits)
    ensures AllDigits("0" + digits) && IndexedLabel(prefix, "0" + digits) == IndexedLabel(prefix, digits)
  {
    LeadingZeroIgnored(digits);
  }
}
