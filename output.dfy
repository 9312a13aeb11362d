/** The output panel of a record card: `parseOutput`, which picks font size,
    width, height and margin items out of the stored output token, and the
    choice between the scaling formula, the parsed items and the raw text.
    Every `str.match(re)` is the leftmost match of `re`; none of these
    patterns has the `i` flag. */
module OutputPanel {
  import opened Wrappers
  import opened DisplayText

  /** One line of the panel: `{ label, value }` (`label` is a Dafny keyword, hence `caption`). */
  datatype Item = Item(caption: string, value: string)

  /** `[_-]` */
  predicate IsSep(c: char) { c == '_' || c == '-' }

  /** The regular expressions `parseOutput` matches. */
  datatype Finder =
    | FontPx    // /font[_-]size[_-](\d+)px/
    | WidthPx   // /width[_-](\d+)px/
    | HeightPx  // /height[_-](\d+)px/
    | MarginPx  // /margin[_-](\w+)[_-](\d+)px/

  /** The words a pixel pattern begins with, each followed by `[_-]`. */
  function Words(f: Finder): (ws: seq<string>)
    ensures |ws| >= 1 && |ws[0]| >= 1
  {
    match f
    case FontPx => ["font", "size"]
    case WidthPx => ["width"]
    case HeightPx => ["height"]
    case MarginPx => ["margin"]
  }

  /** What a match captures: the `(\w+)` group (empty for the patterns without
      one) and the `(\d+)` group. */
  datatype Capture = Capture(name: string, digits: string)

  /** How much of `s` the words, each followed by `[_-]`, cover from its start. */
  function WordsLength(ws: seq<string>, s: string): (n: Option<nat>)
    ensures n.Some? ==> n.value <= |s|
    decreases |ws|
  {
    if ws == [] then Some(0)
    else if StartsWith(s, ws[0], false) && |ws[0]| < |s| && IsSep(s[|ws[0]|]) then
      match WordsLength(ws[1..], s[|ws[0]| + 1..])
      case Some(n) => Some(|ws[0]| + 1 + n)
      case None => None
    else None
  }

  /** `(\d+)px` at the start of `s`: the digits, when they are followed by "px". */
  function PixelsAt(s: string): (d: Option<string>)
    ensures d.Some? ==> 0 < |d.value| <= |s|
  {
    var n := DigitRun(s);
    if n > 0 && StartsWith(s[n..], "px", false) then Some(s[..n]) else None
  }

  /** The length of the run of `\w` characters that begins `s`. */
  function WordRun(s: string): (n: nat)
    ensures n <= |s|
  {
    if s != [] && IsWordChar(s[0]) then 1 + WordRun(s[1..]) else 0
  }

  /** The split of `t` into `(\w+)` of length `w`, `[_-]`, then `(\d+)px`. */
  function SplitAt(t: string, w: nat): Option<Capture>
    requires w <= |t|
  {
    if 0 < w < |t| && IsSep(t[w]) then
      match PixelsAt(t[w + 1..])
      case Some(d) => Some(Capture(t[..w], d))
      case None => None
    else None
  }

  /** `(\w+)[_-](\d+)px` at the start of `t`, with `\w+` backtracking from
      `w` characters down to one. */
  function Backtrack(t: string, w: nat): (c: Option<Capture>)
    requires w <= WordRun(t)
    ensures c.Some? ==> 0 < |c.value.name| <= w && SplitAt(t, |c.value.name|) == c
    decreases w
  {
    if w == 0 then None
    else match SplitAt(t, w)
      case Some(c) => Some(c)
      case None => Backtrack(t, w - 1)
  }

  /** The match of `f` that begins at the first character of `s`, if any: it
      captures a non-empty digit run, and a word exactly for the margin pattern. */
  function MatchHere(f: Finder, s: string): (c: Option<Capture>)
    ensures c.Some? ==> |c.value.digits| > 0 && (c.value.name != "" <==> f == MarginPx)
  {
    match WordsLength(Words(f), s)
    case None => None
    case Some(n) =>
      if f == MarginPx then Backtrack(s[n..], WordRun(s[n..]))
      else match PixelsAt(s[n..])
        case Some(d) => Some(Capture("", d))
        case None => None
  }

  /** `str.match(re)`: the leftmost match, with the captures of `MatchHere`. */
  function First(f: Finder, s: string): (c: Option<Capture>)
    ensures c.Some? ==> |c.value.digits| > 0 && (c.value.name != "" <==> f == MarginPx)
    decreases |s|
  {
    match MatchHere(f, s)
    case Some(c) => Some(c)
    case None => if s == [] then None else First(f, s[1..])
  }

  /** `parseOutput(str)`: at most one item per kind, in the order font size,
      width, height, margin. */
  function ParseOutput(str: string): (items: seq<Item>)
    ensures |items| <= 4
  {
    FontItems(str) + WidthItems(str) + HeightItems(str) + MarginItems(str)
  }

  /** At most one item, and it is a font size. */
  function FontItems(str: string): (r: seq<Item>)
    ensures OfRank(r, 0)
  {
    match First(FontPx, str)
    case Some(c) => [Item("Font Size", c.digits + "px")]
    case None =>
      if Contains(str, "font") && Contains(str, "keep") then [Item("Font Size", "Keep")] else []
  }

  /** At most one item, and it is a width. */
  function WidthItems(str: string): (r: seq<Item>)
    ensures OfRank(r, 1)
  {
    if !Contains(str, "width") then []
    else if Contains(str, "100pct") || Contains(str, "100%") then [Item("Width", "100%")]
    else match First(WidthPx, str)
      case Some(c) => [Item("Width", c.digits + "px")]
      case None =>
        if Contains(str, "width-keep") || Contains(str, "width_keep") then [Item("Width", "Keep")]
        else if Contains(str, "width-full") then [Item("Width", "100%")]
        else []
  }

  /** At most one item, and it is a height. */
  function HeightItems(str: string): (r: seq<Item>)
    ensures OfRank(r, 2)
  {
    if !Contains(str, "height") then []
    else if Contains(str, "height-auto") || Contains(str, "height_auto") then [Item("Height", "Auto")]
    else if Contains(str, "height-keep") || Contains(str, "height_keep") then [Item("Height", "Keep")]
    else match First(HeightPx, str)
      case Some(c) => [Item("Height", c.digits + "px")]
      case None =>
        if Contains(str, "aspect_ratio") || Contains(str, "aspect-ratio") then [Item("Height", "Aspect Ratio")]
        else []
  }

  /** At most one item, and it is a margin. */
  function MarginItems(str: string): (r: seq<Item>)
    ensures OfRank(r, 3)
  {
    match First(MarginPx, str)
    case Some(c) =>
      MarginRank(c.name);
      [Item("Margin " + c.name, c.digits + "px")]
    case None => []
  }

  /** What the output panel shows. */
  datatype View =
    | Formula(capped: bool)      // scaledValue × (desktopVW / mobileVW), with ' [100% max]' when capped
    | Listing(items: seq<Item>)  // one line per parsed item
    | Plain(text: string)        // the output with '_' read as ' '

  /** The output panel, from `h.step6_output || '—'`: a listing has one to four
      items, and text shown as it is has no underscore left. */
  function ShowOutput(storedOutput: string): (v: View)
    ensures v.Listing? ==> 0 < |v.items| <= 4
    ensures v.Plain? ==> '_' !in v.text
  {
    var output := if storedOutput == "" then "—" else storedOutput;
    if ScalingReset(output) then Formula(Contains(output, "100pct") || Contains(output, "100%"))
    else
      var parsed := ParseOutput(output);
      ReplaceRemoves('_', " ", output);
      if |parsed| > 0 then Listing(parsed) else Plain(ReplaceAll(Text("_", false, " "), output))
  }

  // ---------------------------------------------------------------------------
  // Properties

  /** `(\d+)px` captures a non-empty run of digits, which `s` begins with, followed by "px". */
  lemma {:induction false} PixelsAtSpec(s: string)
    ensures PixelsAt(s).Some? ==>
      var d := PixelsAt(s).value;
      |d| > 0 && AllDigits(d) && StartsWith(s, d + "px", false)
  {
    if PixelsAt(s).Some? {
      var n := DigitRun(s);
      DigitRunSpec(s);
      assert PixelsAt(s).value == s[..n];
      forall k | 0 <= k < n + 2 ensures (s[..n] + "px")[k] == s[k] {
        if k >= n { assert s[n..][k - n] == s[k]; }
      }
    }
  }

  /** The word run is made of `\w` characters. */
  lemma {:induction false} WordRunChars(s: string)
    ensures forall k :: 0 <= k < WordRun(s) ==> IsWordChar(s[k])
    decreases |s|
  {
    if s != [] && IsWordChar(s[0]) {
      WordRunChars(s[1..]);
      assert forall k :: 1 <= k < WordRun(s) ==> s[k] == s[1..][k - 1];
    }
  }

  /** A margin split captures a word of `\w` characters and, after `[_-]`, digits
      that `t` holds followed by "px". */
  lemma {:induction false} SplitAtSpec(t: string, w: nat)
    requires w <= WordRun(t)
    ensures SplitAt(t, w).Some? ==>
      var c := SplitAt(t, w).value;
      && |c.name| == w > 0 && (forall k :: 0 <= k < |c.name| ==> IsWordChar(c.name[k]))
      && |c.digits| > 0 && AllDigits(c.digits) && Contains(t, c.digits + "px")
  {
    if SplitAt(t, w).Some? {
      var c := SplitAt(t, w).value;
      WordRunChars(t);
      PixelsAtSpec(t[w + 1..]);
      ContainsInSuffix(t, w + 1, c.digits + "px");
    }
  }

  /** A match begins with the pattern's first word, captures digits that `s`
      holds followed by "px", and captures a `\w` word exactly for the margin
      pattern. */
  lemma {:induction false} MatchHereSpec(f: Finder, s: string)
    ensures MatchHere(f, s).Some? ==>
      var c := MatchHere(f, s).value;
      && StartsWith(s, Words(f)[0], false)
      && |c.digits| > 0 && AllDigits(c.digits) && Contains(s, c.digits + "px")
      && (f == MarginPx ==> |c.name| > 0 && forall k :: 0 <= k < |c.name| ==> IsWordChar(c.name[k]))
      && (f != MarginPx ==> c.name == "")
  {
    match WordsLength(Words(f), s)
    case None =>
    case Some(n) =>
      var t := s[n..];
      if f == MarginPx {
        var c := Backtrack(t, WordRun(t));
        if c.Some? {
          SplitAtSpec(t, |c.value.name|);
          ContainsInSuffix(s, n, c.value.digits + "px");
        }
      } else {
        PixelsAtSpec(t);
        if PixelsAt(t).Some? {
          ContainsInSuffix(s, n, PixelsAt(t).value + "px");
        }
      }
  }

  /** What `str.match(re)` finds: the pattern's first word and the captured
      digits followed by "px" both occur in `s`; the margin pattern's word is
      a run of `\w` characters. */
  lemma {:induction false} FirstSpec(f: Finder, s: string)
    ensures First(f, s).Some? ==>
      var c := First(f, s).value;
      && Contains(s, Words(f)[0])
      && |c.digits| > 0 && AllDigits(c.digits) && Contains(s, c.digits + "px")
      && (f == MarginPx ==> |c.name| > 0 && forall k :: 0 <= k < |c.name| ==> IsWordChar(c.name[k]))
    decreases |s|
  {
    MatchHereSpec(f, s);
    if MatchHere(f, s).None? && s != [] {
      FirstSpec(f, s[1..]);
    }
  }

  /** `First` finds a match exactly when some position of `s` begins one, and
      then it is the match at the leftmost such position. */
  lemma {:induction false} FirstIsLeftmost(f: Finder, s: string)
    ensures First(f, s).Some? <==> exists i :: 0 <= i <= |s| && MatchHere(f, s[i..]).Some?
    ensures First(f, s).Some? ==>
      exists i :: 0 <= i <= |s| && MatchHere(f, s[i..]) == First(f, s) &&
        forall j :: 0 <= j < i ==> MatchHere(f, s[j..]).None?
    decreases |s|
  {
    assert s[0..] == s;
    if MatchHere(f, s).None? && s != [] {
      FirstIsLeftmost(f, s[1..]);
      forall i | 1 <= i <= |s| ensures s[1..][i - 1..] == s[i..] { }
      if First(f, s).Some? {
        var i :| 0 <= i <= |s[1..]| && MatchHere(f, s[1..][i..]) == First(f, s[1..]) &&
          forall j :: 0 <= j < i ==> MatchHere(f, s[1..][j..]).None?;
        assert MatchHere(f, s[i + 1..]) == First(f, s);
        forall j | 0 <= j < i + 1 ensures MatchHere(f, s[j..]).None? {
          if j > 0 { assert s[1..][j - 1..] == s[j..]; }
        }
      }
      if exists i :: 0 <= i <= |s| && MatchHere(f, s[i..]).Some? {
        var i :| 0 <= i <= |s| && MatchHere(f, s[i..]).Some?;
        assert i > 0;
        assert MatchHere(f, s[1..][i - 1..]).Some?;
      }
    }
  }

  /** Backtracking tries the split of length `w` first, then the shorter ones. */
  lemma {:induction false} BacktrackStep(t: string, w: nat)
    requires 0 < w <= WordRun(t)
    ensures Backtrack(t, w) == if SplitAt(t, w).Some? then SplitAt(t, w) else Backtrack(t, w - 1)
  {
  }

  /** When a split of length `v` works, backtracking from `w >= v` finds one. */
  lemma {:induction false} BacktrackFinds(t: string, w: nat, v: nat)
    requires w <= WordRun(t)
    requires 0 < v <= w && SplitAt(t, v).Some?
    ensures Backtrack(t, w).Some?
    decreases w
  {
    if v < w {
      BacktrackStep(t, w);
      if SplitAt(t, w).None? {
        BacktrackFinds(t, w - 1, v);
      }
    }
  }

  /** No split longer than the one backtracking finds works. */
  lemma {:induction false} BacktrackSkipsLonger(t: string, w: nat, u: nat)
    requires w <= WordRun(t)
    requires Backtrack(t, w).Some? && |Backtrack(t, w).value.name| < u <= w
    ensures SplitAt(t, u).None?
    decreases w
  {
    BacktrackStep(t, w);
    if SplitAt(t, w).None? {
      if u < w {
        BacktrackSkipsLonger(t, w - 1, u);
      }
    }
  }

  /** The margin pattern's `\w+` takes the longest word for which the rest of
      the pattern matches: `Backtrack` finds a split exactly when one of length
      1..w works, and then no longer one works. */
  lemma {:induction false} BacktrackLongest(t: string, w: nat)
    requires w <= WordRun(t)
    ensures Backtrack(t, w).Some? <==> exists v :: 0 < v <= w && SplitAt(t, v).Some?
    ensures Backtrack(t, w).Some? ==>
      forall u :: |Backtrack(t, w).value.name| < u <= w ==> SplitAt(t, u).None?
  {
    if exists v :: 0 < v <= w && SplitAt(t, v).Some? {
      var v :| 0 < v <= w && SplitAt(t, v).Some?;
      BacktrackFinds(t, w, v);
    }
    if Backtrack(t, w).Some? {
      forall u | |Backtrack(t, w).value.name| < u <= w ensures SplitAt(t, u).None? {
        BacktrackSkipsLonger(t, w, u);
      }
    }
  }

  /** The rank of an item's kind in the panel: font size, width, height, margin. */
  function Rank(caption: string): nat {
    if caption == "Font Size" then 0
    else if caption == "Width" then 1
    else if caption == "Height" then 2
    else 3
  }

  lemma {:induction false} MarginRank(name: string)
    ensures Rank("Margin " + name) == 3
  {
    var m := "Margin " + name;
    assert m[0] == 'M';
  }

  /** Each part holds at most one item, all of the given rank. */
  predicate OfRank(part: seq<Item>, r: nat) {
    |part| <= 1 && forall k :: 0 <= k < |part| ==> Rank(part[k].caption) == r
  }

  /** Four parts of increasing rank, joined, are in strictly increasing rank. */
  lemma {:induction false} JoinedRanks(a: seq<Item>, b: seq<Item>, c: seq<Item>, d: seq<Item>)
    requires OfRank(a, 0) && OfRank(b, 1) && OfRank(c, 2) && OfRank(d, 3)
    ensures |a + b + c + d| <= 4
    ensures forall i, j :: 0 <= i < j < |a + b + c + d| ==>
      Rank((a + b + c + d)[i].caption) < Rank((a + b + c + d)[j].caption)
  {
    var items := a + b + c + d;
    forall k | 0 <= k < |items|
      ensures Rank(items[k].caption) ==
        if k < |a| then 0 else if k < |a| + |b| then 1 else if k < |a| + |b| + |c| then 2 else 3
    {
      if k < |a| { assert items[k] == a[k]; }
      else if k < |a| + |b| { assert items[k] == b[k - |a|]; }
      else if k < |a| + |b| + |c| { assert items[k] == c[k - |a| - |b|]; }
      else { assert items[k] == d[k - |a| - |b| - |c|]; }
    }
  }

  /** `parseOutput` yields at most four items, at most one of each kind, in
      the order font size, width, height, margin. */
  lemma {:induction false} ParseOutputOrder(str: string)
    ensures |ParseOutput(str)| <= 4
    ensures forall i, j :: 0 <= i < j < |ParseOutput(str)| ==>
      Rank(ParseOutput(str)[i].caption) < Rank(ParseOutput(str)[j].caption)
  {
    JoinedRanks(FontItems(str), WidthItems(str), HeightItems(str), MarginItems(str));
  }

  /** An output that mentions none of font, width, height and margin yields no item. */
  lemma {:induction false} ParseOutputNothing(str: string)
    requires !Contains(str, "font") && !Contains(str, "width")
    requires !Contains(str, "height") && !Contains(str, "margin")
    ensures ParseOutput(str) == []
  {
    FirstSpec(FontPx, str);
    FirstSpec(MarginPx, str);
  }

  /** A value the panel may show for `str`: a fixed word, or a run of digits
      that `str` holds followed by "px". */
  predicate Shown(str: string, value: string) {
    || value in {"Keep", "100%", "Auto", "Aspect Ratio"}
    || (&& |value| > 2 && value[|value| - 2..] == "px" && AllDigits(value[..|value| - 2])
        && Contains(str, value))
  }

  lemma {:induction false} FoundShown(f: Finder, str: string)
    requires First(f, str).Some?
    ensures Shown(str, First(f, str).value.digits + "px")
  {
    FirstSpec(f, str);
    var d := First(f, str).value.digits;
    var v := d + "px";
    assert v[..|v| - 2] == d && v[|v| - 2..] == "px";
  }

  lemma {:induction false} FontShown(str: string)
    ensures forall it :: it in FontItems(str) ==> Shown(str, it.value)
  {
    if First(FontPx, str).Some? { FoundShown(FontPx, str); }
  }

  lemma {:induction false} WidthShown(str: string)
    ensures forall it :: it in WidthItems(str) ==> Shown(str, it.value)
  {
    if First(WidthPx, str).Some? { FoundShown(WidthPx, str); }
  }

  lemma {:induction false} HeightShown(str: string)
    ensures forall it :: it in HeightItems(str) ==> Shown(str, it.value)
  {
    if First(HeightPx, str).Some? { FoundShown(HeightPx, str); }
  }

  lemma {:induction false} MarginShown(str: string)
    ensures forall it :: it in MarginItems(str) ==> Shown(str, it.value)
  {
    if First(MarginPx, str).Some? { FoundShown(MarginPx, str); }
  }

  /** Every value `parseOutput` shows is a fixed word or a run of digits that
      the output holds followed by "px". */
  lemma {:induction false} ParseOutputValues(str: string)
    ensures forall it :: it in ParseOutput(str) ==> Shown(str, it.value)
  {
    FontShown(str); WidthShown(str); HeightShown(str); MarginShown(str);
  }

  /** The output token "width-100pct_height-auto", with either separator between its halves. */
  function Example(sep: char): string {
    "width-100pct" + [sep] + "height-auto"
  }

  lemma {:induction false} ExampleWidth(sep: char)
    ensures WidthItems(Example(sep)) == [Item("Width", "100%")]
  {
    var str := Example(sep);
    assert StartsWith(str, "width", false);
    ContainsInSuffix(str, 0, "width");
    assert StartsWith(str[6..], "100pct", false);
    ContainsInSuffix(str, 6, "100pct");
  }

  lemma {:induction false} ExampleHeight(sep: char)
    ensures HeightItems(Example(sep)) == [Item("Height", "Auto")]
  {
    var str := Example(sep);
    assert StartsWith(str[13..], "height", false);
    ContainsInSuffix(str, 13, "height");
    assert StartsWith(str[13..], "height-auto", false);
    ContainsInSuffix(str, 13, "height-auto");
  }

  /** "width-100pct_height-auto" (or with '-' in the middle) shows Width 100%
      and Height Auto, and nothing else. */
  lemma {:induction false} ParseWidthAndHeight(sep: char)
    requires IsSep(sep)
    ensures ParseOutput(Example(sep)) == [Item("Width", "100%"), Item("Height", "Auto")]
  {
    var str := Example(sep);
    assert 'f' !in str && 'm' !in str;
    NoFontNoMargin(str);
    ExampleWidth(sep);
    ExampleHeight(sep);
    JoinParts(str, [], [Item("Width", "100%")], [Item("Height", "Auto")], []);
  }

  lemma {:induction false} JoinParts(str: string, a: seq<Item>, b: seq<Item>, c: seq<Item>, d: seq<Item>)
    requires FontItems(str) == a && WidthItems(str) == b && HeightItems(str) == c && MarginItems(str) == d
    ensures ParseOutput(str) == a + b + c + d
  {
  }

  /** An output without 'f' and 'm' has no font or margin item. */
  lemma {:induction false} NoFontNoMargin(str: string)
    requires 'f' !in str && 'm' !in str
    ensures FontItems(str) == [] && MarginItems(str) == []
  {
    LacksChar(str, "font", 'f');
    LacksChar(str, "margin", 'm');
    FirstSpec(FontPx, str);
    FirstSpec(MarginPx, str);
  }

  /** A record with no output shows a dash. */
  lemma {:induction false} MissingOutputShowsDash()
    ensures ShowOutput("") == Plain("—")
  {
    var dash := "—";
    LacksChar(dash, "scaling-reset", 's');
    LacksChar(dash, "scaling_reset", 's');
    LacksChar(dash, "font", 'f');
    LacksChar(dash, "width", 'w');
    LacksChar(dash, "height", 'h');
    LacksChar(dash, "margin", 'm');
    ParseOutputNothing(dash);
    assert ReplaceAll(Text("_", false, " "), dash) == dash by {
      SpacesForUnderscores(dash);
    }
  }
}
