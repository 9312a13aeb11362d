/** The string helpers behind the record cards: the regex-replace chain that
    formats a condition value, the title-case idiom
    `.replace(/_/g, ' ').replace(/\b\w/g, l => l.toUpperCase())`, and the
    condition-type label. Each global `String.prototype.replace` is modelled
    as a left-to-right scan: where the pattern matches, its replacement is
    emitted and the scan resumes after the match; elsewhere one character is
    copied. */
module DisplayText {
  import opened Wrappers

  predicate IsDigit(c: char) { '0' <= c <= '9' }

  /** `\w` */
  predicate IsWordChar(c: char) {
    'a' <= c <= 'z' || 'A' <= c <= 'Z' || IsDigit(c) || c == '_'
  }

  /** The case folding of the `i` flag on the ASCII letters of these patterns. */
  function Lower(c: char): char {
    if 'A' <= c <= 'Z' then (c as int + 32) as char else c
  }

  /** `toUpperCase` of one `\w` character. */
  function Upper(c: char): char {
    if 'a' <= c <= 'z' then (c as int - 32) as char else c
  }

  predicate CharMatches(c: char, p: char, ignoreCase: bool) {
    if ignoreCase then Lower(c) == Lower(p) else c == p
  }

  /** `s` begins with `lit`. */
  predicate StartsWith(s: string, lit: string, ignoreCase: bool) {
    |lit| <= |s| && forall k :: 0 <= k < |lit| ==> CharMatches(s[k], lit[k], ignoreCase)
  }

  /** The length of the run of digits `\d+` that begins `s`, taken greedily. */
  function DigitRun(s: string): (n: nat)
    ensures n <= |s|
  {
    if s != [] && IsDigit(s[0]) then 1 + DigitRun(s[1..]) else 0
  }

  /** The run is made of digits, and ends at a non-digit or at the end of `s`. */
  lemma {:induction false} DigitRunSpec(s: string)
    ensures forall k :: 0 <= k < DigitRun(s) ==> IsDigit(s[k])
    ensures DigitRun(s) < |s| ==> !IsDigit(s[DigitRun(s)])
    decreases |s|
  {
    if s != [] && IsDigit(s[0]) {
      DigitRunSpec(s[1..]);
      assert forall k :: 1 <= k < DigitRun(s) ==> s[k] == s[1..][k - 1];
    }
  }

  /** The patterns of the replace chains. */
  datatype Pattern =
    | Text(lit: string, ignoreCase: bool, replacement: string)  // /lit/g or /lit/gi
    | DigitsToDigits                                           // /(\d+)to(\d+)/g -> '$1:$2'
    | TaggedPixels(tag: string, before: string)                // /tag(\d+)px/gi -> before + '$1px'

  /** A match at the start of the text: how much it consumes and what replaces it. */
  datatype Hit = Hit(length: nat, text: string)

  /** The match of `p` that begins at the first character of `s`, if any. */
  function MatchAt(p: Pattern, s: string): (m: Option<Hit>)
    ensures m.Some? ==> 1 <= m.value.length <= |s|
  {
    match p
    case Text(lit, ic, repl) =>
      if |lit| > 0 && StartsWith(s, lit, ic) then Some(Hit(|lit|, repl)) else None
    case DigitsToDigits =>
      var a := DigitRun(s);
      if a > 0 && StartsWith(s[a..], "to", false) then
        var b := DigitRun(s[a + 2..]);
        if b > 0 then Some(Hit(a + 2 + b, s[..a] + ":" + s[a + 2..a + 2 + b])) else None
      else None
    case TaggedPixels(tag, before) =>
      if StartsWith(s, tag, true) then
        var d := DigitRun(s[|tag|..]);
        if d > 0 && StartsWith(s[|tag| + d..], "px", true) then
          Some(Hit(|tag| + d + 2, before + s[|tag|..|tag| + d] + "px"))
        else None
      else None
  }

  /** `s.replace(p, …)` with the global flag. A literal pattern whose
      replacement is no longer than itself never lengthens the text. */
  function ReplaceAll(p: Pattern, s: string): (r: string)
    ensures p.Text? && |p.replacement| <= |p.lit| ==> |r| <= |s|
    ensures p.Text? && |p.replacement| == |p.lit| ==> |r| == |s|
    decreases |s|
  {
    if s == [] then []
    else match MatchAt(p, s)
      case Some(hit) => hit.text + ReplaceAll(p, s[hit.length..])
      case None => [s[0]] + ReplaceAll(p, s[1..])
  }

  // ---------------------------------------------------------------------------
  // General facts about one replace

  /** Where the pattern matches nowhere, the replace returns its input. */
  lemma {:induction false} ReplaceNowhere(p: Pattern, s: string)
    requires forall k :: 0 <= k < |s| ==> MatchAt(p, s[k..]).None?
    ensures ReplaceAll(p, s) == s
    decreases |s|
  {
    if s != [] {
      assert MatchAt(p, s[0..]).None? && s[0..] == s;
      forall k | 0 <= k < |s[1..]| ensures MatchAt(p, s[1..][k..]).None? {
        assert s[1..][k..] == s[k + 1..];
      }
      ReplaceNowhere(p, s[1..]);
      assert [s[0]] + s[1..] == s;
    }
  }

  /** A text that fits one match exactly is replaced by that match's text. */
  lemma {:induction false} ReplaceWhole(p: Pattern, s: string)
    requires MatchAt(p, s).Some? && MatchAt(p, s).value.length == |s|
    ensures ReplaceAll(p, s) == MatchAt(p, s).value.text
  {
    assert s[|s|..] == [];
  }

  /** A letter `c` that every match must contain (up to the case folding). */
  predicate Needs(p: Pattern, c: char) {
    match p
    case Text(lit, _, _) => c in lit
    case DigitsToDigits => c == 'o'
    case TaggedPixels(tag, _) => c in tag
  }

  /** No character of `s` folds to the same letter as `c`. */
  predicate Avoids(s: string, c: char) {
    forall k :: 0 <= k < |s| ==> Lower(s[k]) != Lower(c)
  }

  /** A pattern that needs a letter the text does not have leaves it unchanged. */
  lemma {:induction false} ReplaceWithout(p: Pattern, s: string, c: char)
    requires Needs(p, c) && Avoids(s, c)
    ensures ReplaceAll(p, s) == s
  {
    forall k | 0 <= k < |s| ensures MatchAt(p, s[k..]).None? {
      var t := s[k..];
      assert Avoids(t, c);
      match p
      case Text(lit, ic, _) =>
        var j :| 0 <= j < |lit| && lit[j] == c;
        assert j < |t| ==> !CharMatches(t[j], lit[j], ic);
      case DigitsToDigits =>
        var a := DigitRun(t);
        assert a + 1 < |t| ==> t[a..][1] == t[a + 1] != 'o';
      case TaggedPixels(tag, _) =>
        var j :| 0 <= j < |tag| && tag[j] == c;
        assert j < |t| ==> !CharMatches(t[j], tag[j], true);
    }
    ReplaceNowhere(p, s);
  }

  /** Replacing a case-sensitive literal by itself changes nothing (`.replace(/px/g, 'px')`). */
  lemma {:induction false} ReplaceBySelf(lit: string, s: string)
    ensures ReplaceAll(Text(lit, false, lit), s) == s
    decreases |s|
  {
    var p := Text(lit, false, lit);
    if s != [] {
      match MatchAt(p, s)
      case Some(hit) =>
        ReplaceBySelf(lit, s[hit.length..]);
        assert s[..|lit|] == lit;
        assert s[..|lit|] + s[|lit|..] == s;
      case None =>
        ReplaceBySelf(lit, s[1..]);
        assert [s[0]] + s[1..] == s;
    }
  }

  /** After a case-sensitive replace of `c` by a text without `c`, no `c` is left. */
  lemma {:induction false} ReplaceRemoves(c: char, repl: string, s: string)
    requires c !in repl
    ensures c !in ReplaceAll(Text([c], false, repl), s)
    decreases |s|
  {
    if s != [] {
      var p := Text([c], false, repl);
      match MatchAt(p, s)
      case Some(hit) =>
        ReplaceRemoves(c, repl, s[hit.length..]);
      case None =>
        assert s[0] != c;
        ReplaceRemoves(c, repl, s[1..]);
    }
  }

  lemma {:induction false} AvoidsConcat(a: string, b: string, c: char)
    requires Avoids(a, c) && Avoids(b, c)
    ensures Avoids(a + b, c)
  {
    forall k | 0 <= k < |a + b| ensures Lower((a + b)[k]) != Lower(c) {
      if k < |a| { assert (a + b)[k] == a[k]; } else { assert (a + b)[k] == b[k - |a|]; }
    }
  }

  /** Digits fold to no letter. */
  lemma {:induction false} DigitsAvoid(n: string, c: char)
    requires forall k :: 0 <= k < |n| ==> IsDigit(n[k])
    requires !IsDigit(Lower(c))
    ensures Avoids(n, c)
  {
  }

  /** A digit run followed by a non-digit ends where the digits end. */
  lemma {:induction false} DigitRunOf(n: string, rest: string)
    requires forall k :: 0 <= k < |n| ==> IsDigit(n[k])
    requires rest == [] || !IsDigit(rest[0])
    ensures DigitRun(n + rest) == |n|
    decreases |n|
  {
    if n != [] {
      assert (n + rest)[1..] == n[1..] + rest;
      DigitRunOf(n[1..], rest);
    } else {
      assert n + rest == rest;
    }
  }

  predicate AllDigits(n: string) {
    forall k :: 0 <= k < |n| ==> IsDigit(n[k])
  }

  // ---------------------------------------------------------------------------
  // The condition-value formatter

  const LessOrEqual := TaggedPixels("lte_", "is equal / less than ")
  const GreaterOrEqual := TaggedPixels("gte_", "is equal / greater than ")
  const Less := TaggedPixels("lt_", "is less than ")
  const Greater := TaggedPixels("gt_", "is greater than ")

  /** The chain applied to `h.step4_condition_value || ''` on the record cards. */
  /** Whatever the condition value, the formatted text has no underscore: the
      `_` step removes them all and the `px` step puts none back. */
  function FormatConditionValue(v: string): (r: string)
    ensures '_' !in r
  {
    var s1 := ReplaceAll(Text("true_", true, ""), v);
    var s2 := ReplaceAll(DigitsToDigits, s1);
    var s3 := ReplaceAll(LessOrEqual, s2);
    var s4 := ReplaceAll(GreaterOrEqual, s3);
    var s5 := ReplaceAll(Less, s4);
    var s6 := ReplaceAll(Greater, s5);
    var s7 := ReplaceAll(Text("portrait_", true, "Portrait: "), s6);
    var s8 := ReplaceAll(Text("landscape_", true, ""), s7);
    var s9 := ReplaceAll(Text("square_", true, ""), s8);
    var s10 := ReplaceAll(Text("_", false, " / "), s9);
    ReplaceRemoves('_', " / ", s9);
    ReplaceBySelf("px", s10);
    ReplaceAll(Text("px", false, "px"), s10)
  }

  /** The tail of the chain, from `lt_` on, leaves a text with no underscore unchanged. */
  lemma {:induction false} TailFromLess(s: string)
    requires Avoids(s, '_')
    ensures
      var s8 := ReplaceAll(Text("landscape_", true, ""), ReplaceAll(Text("portrait_", true, "Portrait: "), ReplaceAll(Greater, ReplaceAll(Less, s))));
      ReplaceAll(Text("px", false, "px"), ReplaceAll(Text("_", false, " / "), ReplaceAll(Text("square_", true, ""), s8))) == s
  {
    assert Needs(Less, '_') && Needs(Greater, '_');
    ReplaceWithout(Less, s, '_');
    ReplaceWithout(Greater, s, '_');
    ReplaceWithout(Text("portrait_", true, "Portrait: "), s, '_');
    ReplaceWithout(Text("landscape_", true, ""), s, '_');
    ReplaceWithout(Text("square_", true, ""), s, '_');
    ReplaceWithout(Text("_", false, " / "), s, '_');
    ReplaceBySelf("px", s);
  }

  /** The tail of the chain, from `gte_` on, leaves a text with no underscore unchanged. */
  lemma {:induction false} TailKeeps(s: string)
    requires Avoids(s, '_')
    ensures
      var s5 := ReplaceAll(Less, ReplaceAll(GreaterOrEqual, s));
      var s8 := ReplaceAll(Text("landscape_", true, ""), ReplaceAll(Text("portrait_", true, "Portrait: "), ReplaceAll(Greater, s5)));
      ReplaceAll(Text("px", false, "px"), ReplaceAll(Text("_", false, " / "), ReplaceAll(Text("square_", true, ""), s8))) == s
  {
    assert Needs(GreaterOrEqual, '_');
    ReplaceWithout(GreaterOrEqual, s, '_');
    TailFromLess(s);
  }

  /** `lte_Npx` has no 'r' and no 'o', so the first two steps leave it as it is. */
  lemma {:induction false} LessOrEqualKept(n: string)
    requires AllDigits(n)
    ensures ReplaceAll(DigitsToDigits, ReplaceAll(Text("true_", true, ""), "lte_" + n + "px")) == "lte_" + n + "px"
  {
    var v := "lte_" + n + "px";
    DigitsAvoid(n, 'r'); DigitsAvoid(n, 'o');
    AvoidsConcat("lte_", n, 'r'); AvoidsConcat("lte_" + n, "px", 'r');
    AvoidsConcat("lte_", n, 'o'); AvoidsConcat("lte_" + n, "px", 'o');
    ReplaceWithout(Text("true_", true, ""), v, 'r');
    ReplaceWithout(DigitsToDigits, v, 'o');
  }

  /** `tag` followed by digits and "px" is one match of `/tag(\d+)px/gi`. */
  lemma {:induction false} TaggedMatch(tag: string, before: string, n: string)
    requires |n| > 0 && AllDigits(n)
    ensures ReplaceAll(TaggedPixels(tag, before), tag + n + "px") == before + n + "px"
  {
    var v := tag + n + "px";
    var p := TaggedPixels(tag, before);
    assert StartsWith(v, tag, true) by {
      forall k | 0 <= k < |tag| ensures v[k] == tag[k] { }
    }
    assert v[|tag|..] == n + "px";
    DigitRunOf(n, "px");
    assert v[|tag|..][|n|..] == "px";
    assert v[|tag| + |n|..] == "px";
    assert v[|tag|..|tag| + |n|] == n;
    assert MatchAt(p, v) == Some(Hit(|v|, before + n + "px"));
    ReplaceWhole(p, v);
  }

  /** `lte_Npx` is one match of `/lte_(\d+)px/gi`. */
  lemma {:induction false} LessOrEqualMatch(n: string)
    requires |n| > 0 && AllDigits(n)
    ensures ReplaceAll(LessOrEqual, "lte_" + n + "px") == "is equal / less than " + n + "px"
  {
    TaggedMatch("lte_", "is equal / less than ", n);
  }

  /** The first two steps leave `lte_Npx` as it is, and the third replaces it whole. */
  lemma {:induction false} LessOrEqualHead(n: string)
    requires |n| > 0 && AllDigits(n)
    ensures var v := "lte_" + n + "px";
      ReplaceAll(LessOrEqual, ReplaceAll(DigitsToDigits, ReplaceAll(Text("true_", true, ""), v)))
        == "is equal / less than " + n + "px"
  {
    LessOrEqualKept(n);
    LessOrEqualMatch(n);
  }

  lemma {:induction false} LessOrEqualTextAvoids(n: string)
    requires AllDigits(n)
    ensures Avoids("is equal / less than " + n + "px", '_')
  {
    DigitsAvoid(n, '_');
    AvoidsConcat("is equal / less than ", n, '_');
    AvoidsConcat("is equal / less than " + n, "px", '_');
  }

  /** `lte_Npx` reads "is equal / less than Npx". */
  lemma {:induction false} FormatLessOrEqual(n: string)
    requires |n| > 0 && AllDigits(n)
    ensures FormatConditionValue("lte_" + n + "px") == "is equal / less than " + n + "px"
  {
    LessOrEqualHead(n);
    LessOrEqualTextAvoids(n);
    TailKeeps("is equal / less than " + n + "px");
  }

  /** `gte_Npx` has no 'r', 'o' or 'l', so the first three steps leave it as it is. */
  lemma {:induction false} GreaterOrEqualKept(n: string)
    requires AllDigits(n)
    ensures var v := "gte_" + n + "px";
      ReplaceAll(LessOrEqual, ReplaceAll(DigitsToDigits, ReplaceAll(Text("true_", true, ""), v))) == v
  {
    var v := "gte_" + n + "px";
    DigitsAvoid(n, 'r'); DigitsAvoid(n, 'o'); DigitsAvoid(n, 'l');
    AvoidsConcat("gte_", n, 'r'); AvoidsConcat("gte_" + n, "px", 'r');
    AvoidsConcat("gte_", n, 'o'); AvoidsConcat("gte_" + n, "px", 'o');
    AvoidsConcat("gte_", n, 'l'); AvoidsConcat("gte_" + n, "px", 'l');
    ReplaceWithout(Text("true_", true, ""), v, 'r');
    ReplaceWithout(DigitsToDigits, v, 'o');
    assert Needs(LessOrEqual, 'l');
    ReplaceWithout(LessOrEqual, v, 'l');
  }

  /** The first three steps leave `gte_Npx` as it is, and the fourth replaces it whole. */
  lemma {:induction false} GreaterOrEqualHead(n: string)
    requires |n| > 0 && AllDigits(n)
    ensures var v := "gte_" + n + "px";
      ReplaceAll(GreaterOrEqual, ReplaceAll(LessOrEqual, ReplaceAll(DigitsToDigits, ReplaceAll(Text("true_", true, ""), v))))
        == "is equal / greater than " + n + "px"
  {
    GreaterOrEqualKept(n);
    TaggedMatch("gte_", "is equal / greater than ", n);
  }

  lemma {:induction false} GreaterOrEqualTextAvoids(n: string)
    requires AllDigits(n)
    ensures Avoids("is equal / greater than " + n + "px", '_')
  {
    DigitsAvoid(n, '_');
    AvoidsConcat("is equal / greater than ", n, '_');
    AvoidsConcat("is equal / greater than " + n, "px", '_');
  }

  /** `gte_Npx` reads "is equal / greater than Npx". */
  lemma {:induction false} FormatGreaterOrEqual(n: string)
    requires |n| > 0 && AllDigits(n)
    ensures FormatConditionValue("gte_" + n + "px") == "is equal / greater than " + n + "px"
  {
    GreaterOrEqualHead(n);
    GreaterOrEqualTextAvoids(n);
    TailFromLess("is equal / greater than " + n + "px");
  }

  /** A match that spans exactly the text `a` is replaced, and the scan goes on after it. */
  lemma {:induction false} ReplaceFirst(p: Pattern, a: string, b: string)
    requires MatchAt(p, a + b).Some? && MatchAt(p, a + b).value.length == |a|
    ensures ReplaceAll(p, a + b) == MatchAt(p, a + b).value.text + ReplaceAll(p, b)
  {
    assert (a + b)[|a|..] == b;
  }

  /** The four pixel comparisons leave a text with no 'l' and no 'g' unchanged. */
  lemma {:induction false} ComparisonsKeep(s: string)
    requires Avoids(s, 'l') && Avoids(s, 'g')
    ensures ReplaceAll(Greater, ReplaceAll(Less, ReplaceAll(GreaterOrEqual, ReplaceAll(LessOrEqual, s)))) == s
  {
    assert Needs(LessOrEqual, 'l') && Needs(GreaterOrEqual, 'g') && Needs(Less, 'l') && Needs(Greater, 'g');
    ReplaceWithout(LessOrEqual, s, 'l');
    ReplaceWithout(GreaterOrEqual, s, 'g');
    ReplaceWithout(Less, s, 'l');
    ReplaceWithout(Greater, s, 'g');
  }

  /** A ratio `a:b` of digit runs has none of the letters the chain looks for. */
  lemma {:induction false} RatioAvoids(a: string, b: string, c: char)
    requires AllDigits(a) && AllDigits(b) && !IsDigit(Lower(c)) && c != ':'
    ensures Avoids(a + ":" + b, c)
  {
    DigitsAvoid(a, c); DigitsAvoid(b, c);
    AvoidsConcat(a, ":", c); AvoidsConcat(a + ":", b, c);
  }

  /** A text of digit runs `a` and `b` around "to" is one match of `(\d+)to(\d+)`. */
  lemma {:induction false} RatioMatch(a: string, b: string)
    requires |a| > 0 && AllDigits(a) && |b| > 0 && AllDigits(b)
    ensures ReplaceAll(DigitsToDigits, a + "to" + b) == a + ":" + b
  {
    var r := a + "to" + b;
    DigitRunOf(a, "to" + b);
    assert r == a + ("to" + b);
    assert r[|a|..] == "to" + b;
    assert r[|a| + 2..] == b;
    DigitRunOf(b, []);
    assert b + [] == b;
    assert r[..|a|] == a;
    assert r[|a| + 2..|a| + 2 + |b|] == b;
    ReplaceWhole(DigitsToDigits, r);
  }

  /** Where no match begins, one character is copied and the scan goes on. */
  lemma {:induction false} CopyStep(p: Pattern, s: string)
    requires s != [] && MatchAt(p, s).None?
    ensures ReplaceAll(p, s) == [s[0]] + ReplaceAll(p, s[1..])
  {
  }

  /** No `(\d+)to(\d+)` match begins at a non-digit: text of non-digits is
      copied, and the scan goes on after it. */
  lemma {:induction false} NoRatioAtNonDigits(a: string, b: string)
    requires forall k :: 0 <= k < |a| ==> !IsDigit(a[k])
    ensures ReplaceAll(DigitsToDigits, a + b) == a + ReplaceAll(DigitsToDigits, b)
    decreases |a|
  {
    if a == [] {
      assert a + b == b;
    } else {
      var s := a + b;
      assert s[0] == a[0] && DigitRun(s) == 0;
      CopyStep(DigitsToDigits, s);
      assert s[1..] == a[1..] + b;
      NoRatioAtNonDigits(a[1..], b);
      assert [a[0]] + a[1..] == a;
    }
  }

  /** "portrait_atob" has no 'u', so `/true_/gi` leaves it as it is. */
  lemma {:induction false} PortraitNoTrue(a: string, b: string)
    requires AllDigits(a) && AllDigits(b)
    ensures ReplaceAll(Text("true_", true, ""), "portrait_" + (a + "to" + b)) == "portrait_" + (a + "to" + b)
  {
    var r := a + "to" + b;
    DigitsAvoid(a, 'u'); DigitsAvoid(b, 'u');
    AvoidsConcat(a, "to", 'u'); AvoidsConcat(a + "to", b, 'u');
    AvoidsConcat("portrait_", r, 'u');
    ReplaceWithout(Text("true_", true, ""), "portrait_" + r, 'u');
  }

  lemma {:induction false} PortraitPrefixCopied(r: string)
    ensures ReplaceAll(DigitsToDigits, "portrait_" + r) == "portrait_" + ReplaceAll(DigitsToDigits, r)
  {
    NoRatioAtNonDigits("portrait_", r);
  }

  /** The first two steps turn "portrait_atob" into "portrait_a:b". */
  lemma {:induction false} PortraitRatio(a: string, b: string)
    requires |a| > 0 && AllDigits(a) && |b| > 0 && AllDigits(b)
    ensures ReplaceAll(DigitsToDigits, ReplaceAll(Text("true_", true, ""), "portrait_" + (a + "to" + b)))
              == "portrait_" + (a + ":" + b)
  {
    PortraitNoTrue(a, b);
    PortraitPrefixCopied(a + "to" + b);
    RatioMatch(a, b);
  }

  /** The last four steps leave a text with no 'l', 'q' or '_' unchanged. */
  lemma {:induction false} LastStepsKeep(s: string)
    requires Avoids(s, 'l') && Avoids(s, 'q') && Avoids(s, '_')
    ensures ReplaceAll(Text("px", false, "px"), ReplaceAll(Text("_", false, " / "),
              ReplaceAll(Text("square_", true, ""), ReplaceAll(Text("landscape_", true, ""), s)))) == s
  {
    ReplaceWithout(Text("landscape_", true, ""), s, 'l');
    ReplaceWithout(Text("square_", true, ""), s, 'q');
    ReplaceWithout(Text("_", false, " / "), s, '_');
    ReplaceBySelf("px", s);
  }
  /** From `lte_` to `portrait_`, the chain turns "portrait_a:b" into "Portrait: a:b". */
  lemma {:induction false} PortraitLabel(t: string)
    requires Avoids(t, 'l') && Avoids(t, 'g') && Avoids(t, 'p')
    ensures ReplaceAll(Text("portrait_", true, "Portrait: "),
              ReplaceAll(Greater, ReplaceAll(Less, ReplaceAll(GreaterOrEqual, ReplaceAll(LessOrEqual, "portrait_" + t)))))
            == "Portrait: " + t
  {
    AvoidsConcat("portrait_", t, 'l'); AvoidsConcat("portrait_", t, 'g');
    ComparisonsKeep("portrait_" + t);
    var p := Text("portrait_", true, "Portrait: ");
    assert StartsWith("portrait_" + t, "portrait_", true);
    ReplaceFirst(p, "portrait_", t);
    assert Needs(p, 'p');
    ReplaceWithout(p, t, 'p');
  }

  /** The first seven steps turn "portrait_atob" into "Portrait: a:b". */
  lemma {:induction false} PortraitFront(a: string, b: string)
    requires |a| > 0 && AllDigits(a) && |b| > 0 && AllDigits(b)
    ensures var s2 := ReplaceAll(DigitsToDigits, ReplaceAll(Text("true_", true, ""), "portrait_" + (a + "to" + b)));
      ReplaceAll(Text("portrait_", true, "Portrait: "),
        ReplaceAll(Greater, ReplaceAll(Less, ReplaceAll(GreaterOrEqual, ReplaceAll(LessOrEqual, s2)))))
      == "Portrait: " + (a + ":" + b)
  {
    PortraitRatio(a, b);
    RatioAvoids(a, b, 'l'); RatioAvoids(a, b, 'g'); RatioAvoids(a, b, 'p');
    PortraitLabel(a + ":" + b);
  }

  /** The first seven steps of the chain. */
  function FrontSteps(v: string): string {
    var s2 := ReplaceAll(DigitsToDigits, ReplaceAll(Text("true_", true, ""), v));
    ReplaceAll(Text("portrait_", true, "Portrait: "),
      ReplaceAll(Greater, ReplaceAll(Less, ReplaceAll(GreaterOrEqual, ReplaceAll(LessOrEqual, s2)))))
  }

  /** When the first seven steps leave a text with no 'l', 'q' or '_', that text is the result. */
  lemma {:induction false} FormatFromFront(v: string)
    requires Avoids(FrontSteps(v), 'l') && Avoids(FrontSteps(v), 'q') && Avoids(FrontSteps(v), '_')
    ensures FormatConditionValue(v) == FrontSteps(v)
  {
    LastStepsKeep(FrontSteps(v));
  }

  lemma {:induction false} PortraitAvoids(t: string, c: char)
    requires Avoids(t, c) && c in "lq_"
    ensures Avoids("Portrait: " + t, c)
  {
    AvoidsConcat("Portrait: ", t, c);
  }

  /** "portrait_2to3" reads "Portrait: 2:3": for any digit runs `a` and `b`,
      `portrait_atob` reads "Portrait: a:b". */
  lemma {:induction false} FormatPortrait(a: string, b: string)
    requires |a| > 0 && AllDigits(a) && |b| > 0 && AllDigits(b)
    ensures FormatConditionValue("portrait_" + (a + "to" + b)) == "Portrait: " + (a + ":" + b)
  {
    PortraitFront(a, b);
    RatioAvoids(a, b, 'l'); RatioAvoids(a, b, 'q'); RatioAvoids(a, b, '_');
    PortraitAvoids(a + ":" + b, 'l');
    PortraitAvoids(a + ":" + b, 'q');
    PortraitAvoids(a + ":" + b, '_');
    FormatFromFront("portrait_" + (a + "to" + b));
  }

  // ---------------------------------------------------------------------------
  // Title case

  /** `.replace(/\b\w/g, l => l.toUpperCase())`: a word character with no word
      character just before it (`afterWord` says whether the text before `s`
      ended in one) is upper-cased. */
  function CapitalizeWords(s: string, afterWord: bool): (r: string)
    ensures |r| == |s|
    decreases |s|
  {
    if s == [] then []
    else [if IsWordChar(s[0]) && !afterWord then Upper(s[0]) else s[0]]
         + CapitalizeWords(s[1..], IsWordChar(s[0]))
  }

  /** `s.replace(/_/g, ' ').replace(/\b\w/g, l => l.toUpperCase())`: the
      length is kept. */
  function Humanize(s: string): (r: string)
    ensures |r| == |s|
  {
    CapitalizeWords(ReplaceAll(Text("_", false, " "), s), false)
  }

  /** Position `k` of `s` begins a word once underscores read as spaces. */
  predicate WordStart(s: string, k: int)
    requires 0 <= k < |s|
  {
    IsWordChar(s[k]) && s[k] != '_' && (k == 0 || !IsWordChar(s[k - 1]) || s[k - 1] == '_')
  }

  /** The character `Humanize` puts at position `k`, read off `s` alone. */
  function HumanizedAt(s: string, k: int): char
    requires 0 <= k < |s|
  {
    if s[k] == '_' then ' ' else if WordStart(s, k) then Upper(s[k]) else s[k]
  }

  /** Replacing '_' by ' ' works character by character. */
  lemma {:induction false} SpacesForUnderscores(s: string)
    ensures var r := ReplaceAll(Text("_", false, " "), s);
      |r| == |s| && forall k :: 0 <= k < |s| ==> r[k] == if s[k] == '_' then ' ' else s[k]
    decreases |s|
  {
    if s != [] {
      SpacesForUnderscores(s[1..]);
      var r := ReplaceAll(Text("_", false, " "), s);
      var rest := ReplaceAll(Text("_", false, " "), s[1..]);
      assert r == [if s[0] == '_' then ' ' else s[0]] + rest;
      forall k | 0 <= k < |s| ensures r[k] == if s[k] == '_' then ' ' else s[k] {
        if k > 0 { assert r[k] == rest[k - 1] && s[1..][k - 1] == s[k]; }
      }
    }
  }

  /** Capitalising works character by character, looking one character back. */
  lemma {:induction false} CapitalizeAt(s: string, afterWord: bool, k: int)
    requires 0 <= k < |s|
    ensures CapitalizeWords(s, afterWord)[k] ==
      if IsWordChar(s[k]) && !(if k == 0 then afterWord else IsWordChar(s[k - 1])) then Upper(s[k]) else s[k]
    decreases k
  {
    if k > 0 {
      CapitalizeAt(s[1..], IsWordChar(s[0]), k - 1);
      assert CapitalizeWords(s, afterWord)[k] == CapitalizeWords(s[1..], IsWordChar(s[0]))[k - 1];
    }
  }

  /** Title case keeps the length; it turns each '_' into ' ', upper-cases the
      first letter of each word and leaves every other character as it is. */
  lemma {:induction false} HumanizeSpec(s: string)
    ensures |Humanize(s)| == |s|
    ensures forall k :: 0 <= k < |s| ==> Humanize(s)[k] == HumanizedAt(s, k)
  {
    var t := ReplaceAll(Text("_", false, " "), s);
    SpacesForUnderscores(s);
    forall k | 0 <= k < |s| ensures Humanize(s)[k] == HumanizedAt(s, k) {
      CapitalizeAt(t, false, k);
    }
  }

  /** A title-cased text has no underscore. */
  lemma {:induction false} HumanizeNoUnderscore(s: string)
    ensures '_' !in Humanize(s)
  {
    HumanizeSpec(s);
    forall k | 0 <= k < |s| ensures Humanize(s)[k] != '_' {
      assert s[k] != '_' && WordStart(s, k) ==> 'a' <= s[k] <= 'z' || Upper(s[k]) == s[k];
    }
  }

  /** Title-casing twice is title-casing once. */
  lemma {:induction false} HumanizeIdempotent(s: string)
    ensures Humanize(Humanize(s)) == Humanize(s)
  {
    var r := Humanize(s);
    HumanizeSpec(s);
    HumanizeSpec(r);
    HumanizeNoUnderscore(s);
    forall k | 0 <= k < |r| ensures Humanize(r)[k] == r[k] {
      assert r[k] != '_';
      assert IsWordChar(r[k]) <==> IsWordChar(s[k]) && s[k] != '_';
      if k > 0 {
        assert r[k - 1] != '_';
        assert IsWordChar(r[k - 1]) <==> IsWordChar(s[k - 1]) && s[k - 1] != '_';
      }
    }
  }

  // ---------------------------------------------------------------------------
  // Labels on the record cards

  /** `h.step4_condition_type || ''`, as it heads the condition row: a fixed
      label or the type in title case, never showing an underscore. */
  function ConditionTypeLabel(t: string): (r: string)
    ensures '_' !in r
  {
    if t == "is_blank" then "is Blank"
    else if t == "is_blank_desktop_height" then "is Blank & Desktop Height"
    else if t == "desktop_width" then "Desktop Width"
    else if t == "desktop_height" then "Desktop Height"
    else if t == "desktop_font_size" then "Desktop Font Size"
    else
      HumanizeNoUnderscore(t);
      Humanize(t)
  }

  /** `s.includes(t)` */
  predicate Contains(s: string, t: string)
    decreases |s|
  {
    StartsWith(s, t, false) || (s != [] && Contains(s[1..], t))
  }

  /** What a suffix of `s` contains, `s` contains. */
  lemma {:induction false} ContainsInSuffix(s: string, i: int, t: string)
    requires 0 <= i <= |s| && Contains(s[i..], t)
    ensures Contains(s, t)
    decreases i
  {
    if i > 0 {
      assert s[1..][i - 1..] == s[i..];
      ContainsInSuffix(s[1..], i - 1, t);
    } else {
      assert s[0..] == s;
    }
  }

  /** A text that lacks a character of `t` does not contain `t`. */
  lemma {:induction false} LacksChar(s: string, t: string, c: char)
    requires c in t && c !in s
    ensures !Contains(s, t)
    decreases |s|
  {
    var j :| 0 <= j < |t| && t[j] == c;
    assert j < |s| ==> s[j] != t[j];
    if s != [] {
      LacksChar(s[1..], t, c);
    }
  }

  /** The output marks a scaling reset. */
  predicate ScalingReset(output: string) {
    Contains(output, "scaling-reset") || Contains(output, "scaling_reset")
  }

  /** The fixed label the action row shows, when one of its rules fires; `action`
      is `h.step5_action || '—'` and `output` is `h.step6_output || ''`. */
  function ActionRule(action: string, output: string): (r: Option<string>)
    ensures r.Some? ==> '_' !in r.value
  {
    if ScalingReset(output) then Some("Reset Scaling")
    else if Contains(action, "item_size") && Contains(output, "scaling") then Some("Reset Scaling")
    else if Contains(action, "resize_aspect") then Some("Resize in Aspect Ratio")
    else if Contains(action, "container_item_resize") then Some("Resize")
    else if Contains(action, "resize") then Some("Resize")
    else if Contains(action, "item_size") then Some("Resize")
    else if Contains(action, "margin") then Some("Set Margin")
    else if Contains(action, "padding") then Some("Set Padding")
    else if Contains(action, "font_size") then Some("Resize Font")
    else if Contains(action, "alignment") then Some("Align")
    else if Contains(action, "hide") then Some("Hide")
    else if Contains(action, "show") then Some("Show")
    else if Contains(action, "keep") then Some("Keep")
    else if Contains(action, "offset") then Some("Set Offset")
    else if Contains(action, "rotation") || Contains(action, "set_rotation") then Some("Set Rotation")
    else if Contains(action, "arrange") then Some("Arrange")
    else if Contains(action, "menu_spacing") then Some("Menu Spacing")
    else None
  }

  /** The action row of a record card: a fixed label when a rule fires, else
      the action in title case; no label shows an underscore. */
  function ActionLabel(storedAction: string, storedOutput: string): (r: string)
    ensures '_' !in r
  {
    var action := if storedAction == "" then "—" else storedAction;
    match ActionRule(action, storedOutput)
    case Some(fixed) => fixed
    case None =>
      HumanizeNoUnderscore(action);
      Humanize(action)
  }

  /** An action with no lower-case letter matches none of the keyword rules:
      only a scaling-reset output gives it a label. */
  lemma {:induction false} NoRuleWithoutLetters(action: string, output: string)
    requires forall k :: 0 <= k < |action| ==> !('a' <= action[k] <= 'z')
    ensures ActionRule(action, output).None? <==> !ScalingReset(output)
  {
    LacksChar(action, "item_size", 'i');
    LacksChar(action, "resize_aspect", 'r');
    LacksChar(action, "container_item_resize", 'c');
    LacksChar(action, "resize", 'r');
    LacksChar(action, "margin", 'm');
    LacksChar(action, "padding", 'p');
    LacksChar(action, "font_size", 'f');
    LacksChar(action, "alignment", 'a');
    LacksChar(action, "hide", 'h');
    LacksChar(action, "show", 's');
    LacksChar(action, "keep", 'k');
    LacksChar(action, "offset", 'o');
    LacksChar(action, "rotation", 'r');
    LacksChar(action, "set_rotation", 's');
    LacksChar(action, "arrange", 'a');
    LacksChar(action, "menu_spacing", 'm');
  }

  /** A record with no action shows a dash, unless its output is a scaling reset. */
  lemma {:induction false} MissingActionShowsDash(output: string)
    requires !ScalingReset(output)
    ensures ActionLabel("", output) == "—"
  {
    var dash := "—";
    NoRuleWithoutLetters(dash, output);
    assert Humanize(dash) == dash by {
      HumanizeSpec(dash);
    }
  }
}
