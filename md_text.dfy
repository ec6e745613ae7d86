/** The small text helpers of the reverse parser (read_md_email.py): whitespace cleaning,
    reply-prefix stripping and the preview shorteners. */
module MdText {
  import opened Text

  // ---------------------------------------------------------------- whitespace

  /** Every whitespace character is a plain space and is not followed by another one. */
  predicate SingleSpaced(s: string) {
    forall i :: 0 <= i < |s| && IsSpace(s[i]) ==> s[i] == ' ' && (i + 1 == |s| || !IsSpace(s[i + 1]))
  }

  /** What `_clean_ws` promises: single-spaced, with no whitespace at either end. */
  predicate Clean(s: string) {
    SingleSpaced(s) && (s == [] || (!IsSpace(s[0]) && !IsSpace(s[|s| - 1])))
  }

  /** `re.sub(r"\s+", " ", s)`: each maximal run of whitespace becomes one space. */
  function CollapseWs(s: string): (r: string)
    ensures |r| <= |s|
    ensures r == [] <==> s == []
    ensures r != [] ==> (IsSpace(r[0]) <==> IsSpace(s[0]))
    ensures r != [] ==> (IsSpace(r[|r| - 1]) <==> IsSpace(s[|s| - 1]))
    ensures SingleSpaced(r)
    decreases |s|
  {
    if s == [] then []
    else if IsSpace(s[0]) then
      var k := SkipSpace(s, 0);
      var x := CollapseWs(s[k..]);
      DropEnds(s, k);
      SingleSpacedSpace(x);
      " " + x
    else
      var x := CollapseWs(s[1..]);
      DropEnds(s, 1);
      SingleSpacedChar(s[0], x);
      [s[0]] + x
  }

  /** What is left after dropping a prefix ends where the whole does, and starts at the
      cut. */
  lemma DropEnds(s: string, k: nat)
    requires k <= |s|
    ensures s[k..] != [] ==> s[k..][|s[k..]| - 1] == s[|s| - 1] && s[k..][0] == s[k]
  {
  }

  /** A space in front of single-spaced text that does not start with whitespace. */
  lemma SingleSpacedSpace(x: string)
    requires SingleSpaced(x) && (x == [] || !IsSpace(x[0]))
    ensures SingleSpaced(" " + x)
  {
    var y := " " + x;
    forall i | 0 <= i < |y| && IsSpace(y[i])
      ensures y[i] == ' ' && (i + 1 == |y| || !IsSpace(y[i + 1]))
    {
      if i > 0 {
        assert y[i] == x[i - 1];
        if i + 1 < |y| { assert y[i + 1] == x[i]; }
      } else if i + 1 < |y| {
        assert y[1] == x[0];
      }
    }
  }

  /** A character other than whitespace in front of single-spaced text. */
  lemma SingleSpacedChar(c: char, x: string)
    requires SingleSpaced(x) && !IsSpace(c)
    ensures SingleSpaced([c] + x)
  {
    var y := [c] + x;
    forall i | 0 <= i < |y| && IsSpace(y[i])
      ensures y[i] == ' ' && (i + 1 == |y| || !IsSpace(y[i + 1]))
    {
      assert i > 0 && y[i] == x[i - 1];
      if i + 1 < |y| { assert y[i + 1] == x[i]; }
    }
  }

  /** Collapsing keeps every word, in order: only the whitespace between them changes. */
  lemma {:induction false} CollapseWsWords(s: string)
    ensures Words(CollapseWs(s)) == Words(s)
    decreases |s|
  {
    if s != [] {
      if IsSpace(s[0]) {
        var k := SkipSpace(s, 0);
        CollapseWsWords(s[k..]);
        CollapseWsSpaceStep(s, k);
      } else {
        CollapseWsWords(s[1..]);
        CollapseWsCharStep(s);
      }
    }
  }

  lemma CollapseWsSpaceStep(s: string, k: nat)
    requires s != [] && IsSpace(s[0]) && k == SkipSpace(s, 0)
    requires Words(CollapseWs(s[k..])) == Words(s[k..])
    ensures Words(CollapseWs(s)) == Words(s)
  {
    CollapseWsSpaceUnfold(s);
    WordsSpaceHead(' ', CollapseWs(s[k..]));
    WordsSkipSpace(s);
  }

  lemma CollapseWsCharStep(s: string)
    requires s != [] && !IsSpace(s[0])
    requires Words(CollapseWs(s[1..])) == Words(s[1..])
    ensures Words(CollapseWs(s)) == Words(s)
  {
    var y := s[1..];
    var x := CollapseWs(y);
    assert CollapseWs(s) == [s[0]] + x;
    CollapseWsStarts(y);
    WordsCons(s[0], x, y);
    ConsTail(s);
  }

  lemma CollapseWsSpaceUnfold(s: string)
    requires s != [] && IsSpace(s[0])
    ensures CollapseWs(s) == " " + CollapseWs(s[SkipSpace(s, 0)..])
  {
  }

  lemma SplitAt(s: string, k: nat)
    requires k <= |s|
    ensures s[..k] + s[k..] == s
  {
  }

  lemma ConsTail(s: string)
    requires s != []
    ensures [s[0]] + s[1..] == s
  {
  }

  /** Collapsing starts with a word exactly when the text does. */
  lemma CollapseWsStarts(y: string)
    ensures StartsWord(CollapseWs(y)) <==> StartsWord(y)
  {
  }

  /** A string that starts with a non-space character keeps it in front. */
  lemma CollapseWsHead(s: string)
    requires s != [] && !IsSpace(s[0])
    ensures CollapseWs(s)[0] == s[0]
  {
  }

  /** `_clean_ws(text)`: strip, then collapse the whitespace runs. */
  function CleanWs(text: string): (r: string)
    ensures Clean(r)
    ensures |r| <= |text|
  {
    CollapseWs(Strip(text))
  }

  /** Cleaning keeps every word, in order. */
  lemma CleanWsWords(text: string)
    ensures Words(CleanWs(text)) == Words(text)
  {
    CollapseWsWords(Strip(text));
    WordsOfStrip(text);
  }

  /** The first character of the cleaned text comes from the text. */
  lemma CleanWsHead(text: string)
    ensures CleanWs(text) != [] ==> CleanWs(text)[0] in text
  {
    var t := Strip(text);
    if t != [] {
      assert t[0] in t;
      CollapseWsHead(t);
    }
  }

  /** Collapsing changes nothing in a single-spaced string. */
  lemma {:induction false} CollapseSingleSpaced(s: string)
    requires SingleSpaced(s)
    ensures CollapseWs(s) == s
    decreases |s|
  {
    if s != [] {
      assert SingleSpaced(s[1..]);
      CollapseSingleSpaced(s[1..]);
      if IsSpace(s[0]) {
        assert SkipSpace(s, 0) == 1;
      }
    }
  }

  /** A clean string is its own cleaning, so `_clean_ws` is idempotent. */
  lemma CleanWsNoop(s: string)
    requires Clean(s)
    ensures CleanWs(s) == s
  {
    StripNoop(s);
    CollapseSingleSpaced(s);
  }

  lemma CleanWsIdempotent(text: string)
    ensures CleanWs(CleanWs(text)) == CleanWs(text)
  {
    CleanWsNoop(CleanWs(text));
  }

  // ---------------------------------------------------------------- words

  predicate NoSpace(w: string) { forall i :: 0 <= i < |w| ==> !IsSpace(w[i]) }

  /** The first index at or after `i` holding whitespace (or `|s|`). */
  function WordEnd(s: string, i: nat): (r: nat)
    requires i <= |s|
    ensures i <= r <= |s|
    ensures forall k :: i <= k < r ==> !IsSpace(s[k])
    ensures r == |s| || IsSpace(s[r])
    decreases |s| - i
  {
    if i < |s| && !IsSpace(s[i]) then WordEnd(s, i + 1) else i
  }

  /** Every entry is a non-empty run without whitespace. */
  predicate AllWords(ws: seq<string>) { forall w :: w in ws ==> w != [] && NoSpace(w) }

  /** `s.split()`: the maximal runs of non-whitespace characters, in order. */
  function Words(s: string): (ws: seq<string>)
    ensures AllWords(ws)
    decreases |s|
  {
    var t := LStrip(s);
    if t == [] then [] else
      var e := WordEnd(t, 0);
      FirstWord(t);
      [t[..e]] + Words(t[e..])
  }

  /** A text that starts with a character other than whitespace starts with a word. */
  lemma FirstWord(t: string)
    requires t != [] && !IsSpace(t[0])
    ensures WordEnd(t, 0) >= 1 && NoSpace(t[..WordEnd(t, 0)])
  {
    var e := WordEnd(t, 0);
    forall i | 0 <= i < e ensures !IsSpace(t[..e][i]) {
      assert t[..e][i] == t[i];
    }
  }

  lemma LStripIdempotent(s: string)
    ensures LStrip(LStrip(s)) == LStrip(s)
  {
  }

  /** Text that does not start blank keeps its own leading whitespace run when extended. */
  lemma {:induction false} LStripAppend(a: string, x: string)
    requires LStrip(a) != []
    ensures LStrip(a + x) == LStrip(a) + x
    decreases |a|
  {
    assert (a + x)[0] == a[0];
    if IsSpace(a[0]) {
      assert LStrip(a) == LStrip(a[1..]);
      assert (a + x)[1..] == a[1..] + x;
      LStripAppend(a[1..], x);
      assert LStrip(a + x) == LStrip(a[1..] + x);
    } else {
      assert LStrip(a) == a;
    }
  }

  /** A single word splits into itself. */
  lemma WordsOfWord(w: string)
    requires w != [] && NoSpace(w)
    ensures Words(w) == [w]
  {
    assert LStrip(w) == w;
    WordEndNoSpace(w, 0);
    assert w[..|w|] == w && w[|w|..] == [];
    assert LStrip([]) == [];
    assert Words([]) == [];
  }

  lemma {:induction false} WordEndNoSpace(w: string, i: nat)
    requires i <= |w| && forall k :: i <= k < |w| ==> !IsSpace(w[k])
    ensures WordEnd(w, i) == |w|
    decreases |w| - i
  {
    if i < |w| {
      WordEndNoSpace(w, i + 1);
    }
  }

  /** Texts that agree once their leading whitespace is gone have the same words. */
  lemma WordsByLStrip(s: string, u: string)
    requires LStrip(s) == LStrip(u)
    ensures Words(s) == Words(u)
  {
  }

  /** A whitespace character separates words: the words of `a + [c] + b` are those of `a`,
      then those of `b`. */
  lemma {:induction false} WordsSepAppend(a: string, c: char, b: string)
    requires IsSpace(c)
    ensures Words(a + [c] + b) == Words(a) + Words(b)
    decreases |a|
  {
    if LStrip(a) == [] {
      WordsBlankSep(a, c, b);
    } else {
      var t := LStrip(a);
      var e := WordEnd(t, 0);
      FirstWord(t);
      WordsSepAppend(t[e..], c, b);
      WordsWordSep(a, c, b);
    }
  }

  /** The blank-prefix case of `WordsSepAppend`. */
  lemma WordsBlankSep(a: string, c: char, b: string)
    requires IsSpace(c) && LStrip(a) == []
    ensures Words(a + [c] + b) == Words(a) + Words(b)
  {
    var p := a + [c];
    forall i | 0 <= i < |p| ensures IsSpace(p[i]) {
      if i < |a| { assert p[i] == a[i]; } else { assert p[i] == c; }
    }
    LStripSpacePrefix(p, b);
    WordsByLStrip(p + b, b);
    assert Words(a) == [];
  }

  /** The word-first case of `WordsSepAppend`, given the case for the rest of `a`. */
  lemma WordsWordSep(a: string, c: char, b: string)
    requires IsSpace(c) && LStrip(a) != []
    requires Words(LStrip(a)[WordEnd(LStrip(a), 0)..] + [c] + b)
      == Words(LStrip(a)[WordEnd(LStrip(a), 0)..]) + Words(b)
    ensures Words(a + [c] + b) == Words(a) + Words(b)
  {
    var s := a + [c] + b;
    var t := LStrip(a);
    AppendAssoc(a, [c], b);
    LStripAppend(a, [c] + b);
    var u := t + ([c] + b);
    assert LStrip(s) == u;
    var e := WordEnd(t, 0);
    FirstWord(t);
    WordEndAppend(t, [c] + b, 0);
    assert WordEnd(u, 0) == e;
    SliceAppend(t, [c] + b, e);
    AppendAssoc(t[e..], [c], b);
    assert Words(s) == [t[..e]] + Words(t[e..] + [c] + b);
    assert Words(a) == [t[..e]] + Words(t[e..]);
    AppendAssoc([t[..e]], Words(t[e..]), Words(b));
  }

  /** A space separates words: the words of `a + " " + b` are those of `a`, then those of `b`. */
  lemma WordsSpaceAppend(a: string, b: string)
    ensures Words(a + " " + b) == Words(a) + Words(b)
  {
    WordsSepAppend(a, ' ', b);
  }

  /** Extending a text after a word's end does not move that end. */
  lemma {:induction false} WordEndAppend(t: string, x: string, i: nat)
    requires i <= |t|
    requires WordEnd(t, i) < |t| || (x != [] && IsSpace(x[0]))
    ensures WordEnd(t + x, i) == WordEnd(t, i)
    decreases |t| - i
  {
    if i < |t| && !IsSpace(t[i]) {
      WordEndAppend(t, x, i + 1);
    }
  }

  /** Joining words with single spaces and splitting again gives the words back. */
  lemma {:induction false} WordsJoin(ws: seq<string>)
    requires AllWords(ws)
    ensures Words(Join(ws, " ")) == ws
    decreases |ws|
  {
    if |ws| == 1 {
      assert ws[0] in ws;
      WordsOfWord(ws[0]);
    } else if |ws| > 1 {
      var init, last := ws[..|ws| - 1], ws[|ws| - 1];
      assert forall w :: w in init ==> w in ws;
      assert last in ws;
      var j := Join(init, " ");
      assert Join(ws, " ") == j + " " + last;
      WordsJoin(init);
      WordsSpaceAppend(j, last);
      WordsOfWord(last);
      SplitLast(ws);
    }
  }

  /** A text starts with a word when its first character is not whitespace. */
  predicate StartsWord(s: string) { s != [] && !IsSpace(s[0]) }

  /** Whitespace in front changes no word. */
  lemma {:induction false} WordsSkipLead(s: string, k: nat)
    requires k <= |s| && forall i :: 0 <= i < k ==> IsSpace(s[i])
    ensures Words(s[k..]) == Words(s)
  {
    assert s == s[..k] + s[k..];
    LStripSpacePrefix(s[..k], s[k..]);
  }

  /** A whitespace character in front changes no word. */
  lemma WordsSpaceHead(c: char, x: string)
    requires IsSpace(c)
    ensures Words([c] + x) == Words(x)
  {
    ConsTail([c] + x);
    assert LStrip([c] + x) == LStrip(x);
    WordsByLStrip([c] + x, x);
  }

  /** A text of whitespace only has no word. */
  lemma WordsAllSpace(s: string)
    requires forall i :: 0 <= i < |s| ==> IsSpace(s[i])
    ensures Words(s) == []
  {
    StripAllSpace(s);
  }

  /** The leading whitespace run changes no word. */
  lemma WordsSkipSpace(s: string)
    ensures Words(s[SkipSpace(s, 0)..]) == Words(s)
  {
    WordsSkipLead(s, SkipSpace(s, 0));
  }

  /** Trailing whitespace changes no word. */
  lemma WordsSkipTrail(s: string, k: nat)
    requires k <= |s| && forall i :: k <= i < |s| ==> IsSpace(s[i])
    ensures Words(s[..k]) == Words(s)
  {
    var head, tail := s[..k], s[k..];
    forall i | 0 <= i < |tail| ensures IsSpace(tail[i]) {
      assert tail[i] == s[k + i];
    }
    WordsSpaceTail(head, tail);
    SplitAt(s, k);
  }

  lemma WordsSpaceTail(head: string, tail: string)
    requires forall i :: 0 <= i < |tail| ==> IsSpace(tail[i])
    ensures Words(head + tail) == Words(head)
  {
    if tail == [] {
      assert head + tail == head;
    } else {
      var rest := tail[1..];
      assert tail == [tail[0]] + rest;
      forall i | 0 <= i < |rest| ensures IsSpace(rest[i]) {
        assert rest[i] == tail[i + 1];
      }
      WordsAllSpace(rest);
      WordsSepAppend(head, tail[0], rest);
      AppendAssoc(head, [tail[0]], rest);
    }
  }

  /** Stripping the ends changes no word. */
  lemma WordsOfStrip(s: string)
    ensures Words(Strip(s)) == Words(s)
  {
    var t := LStrip(s);
    WordsSkipLead(s, |s| - |t|);
    var r := RStrip(t);
    WordsSkipTrail(t, |r|);
  }

  lemma {:induction false} WordEndCons(c: char, x: string, i: nat)
    requires i <= |x|
    ensures WordEnd([c] + x, i + 1) == 1 + WordEnd(x, i)
    decreases |x| - i
  {
    if i < |x| {
      assert ([c] + x)[i + 1] == x[i];
      WordEndCons(c, x, i + 1);
    }
  }

  lemma ConsSlice(c: char, x: string, e: nat)
    requires 1 <= e <= |x| + 1
    ensures ([c] + x)[..e] == [c] + x[..e - 1]
    ensures ([c] + x)[e..] == x[e - 1..]
  {
  }

  /** The first word of `[c] + x`, for `c` other than whitespace, runs to the first
      whitespace of `x`. */
  lemma WordsConsSplit(c: char, x: string)
    requires !IsSpace(c)
    ensures Words([c] + x) == [[c] + x[..WordEnd(x, 0)]] + Words(x[WordEnd(x, 0)..])
  {
    var t := [c] + x;
    assert LStrip(t) == t;
    var e := WordEnd(t, 0);
    WordEndCons(c, x, 0);
    assert e == 1 + WordEnd(x, 0);
    ConsSlice(c, x, e);
  }

  /** A character other than whitespace in front either starts a word of its own or
      joins the first word of the rest. */
  lemma WordsConsChar(c: char, x: string)
    requires !IsSpace(c)
    ensures StartsWord(x) ==> Words([c] + x) == [[c] + Words(x)[0]] + Words(x)[1..]
    ensures !StartsWord(x) ==> Words([c] + x) == [[c]] + Words(x)
  {
    WordsConsSplit(c, x);
    var e := WordEnd(x, 0);
    if StartsWord(x) {
      assert LStrip(x) == x;
      var ws := Words(x);
      assert ws == [x[..e]] + Words(x[e..]);
      assert ws[0] == x[..e] && ws[1..] == Words(x[e..]);
    } else {
      assert e == 0;
      assert [c] + x[..0] == [c];
      assert x[0..] == x;
    }
  }

  /** Two texts with the same words and the same kind of first character keep the same
      words under a common character other than whitespace in front. */
  lemma WordsCons(c: char, x: string, y: string)
    requires !IsSpace(c) && Words(x) == Words(y)
    requires StartsWord(x) <==> StartsWord(y)
    ensures Words([c] + x) == Words([c] + y)
  {
    WordsConsChar(c, x);
    WordsConsChar(c, y);
  }

  function Min(a: nat, b: nat): nat { if a <= b then a else b }

  /** `_first_n_words(text, n)`: the first `n` words of the cleaned text, joined by spaces.
      The preview holds exactly those words, and no more than `n`. */
  function FirstNWords(text: string, n: nat): (r: string)
    ensures Words(r) == Words(text)[..Min(n, |Words(text)|)]
    ensures |Words(r)| <= n
    ensures Clean(r)
  {
    var ws := Words(CleanWs(text));
    CleanWsWords(text);
    WordsJoinPrefix(ws, n);
    JoinClean(ws[..Min(n, |ws|)]);
    Join(ws[..Min(n, |ws|)], " ")
  }

  /** Words joined by single spaces make a clean text. */
  lemma {:induction false} JoinClean(ws: seq<string>)
    requires AllWords(ws)
    ensures Clean(Join(ws, " "))
    ensures ws != [] ==> Join(ws, " ") != []
    decreases |ws|
  {
    if |ws| == 1 {
      assert ws[0] in ws;
    } else if |ws| > 1 {
      var init, last := ws[..|ws| - 1], ws[|ws| - 1];
      assert forall w :: w in init ==> w in ws;
      assert last in ws;
      JoinClean(init);
      CleanSpaceWord(Join(init, " "), last);
    }
  }

  /** A clean non-empty text, a space and a word make a clean text. */
  lemma CleanSpaceWord(j: string, w: string)
    requires Clean(j) && j != [] && w != [] && NoSpace(w)
    ensures Clean(j + " " + w)
  {
    var s := j + " " + w;
    forall i | 0 <= i < |s| && IsSpace(s[i]) ensures s[i] == ' ' && (i + 1 == |s| || !IsSpace(s[i + 1])) {
      if i < |j| {
        assert s[i] == j[i];
        if i + 1 < |j| {
          assert s[i + 1] == j[i + 1];
        }
      } else if i == |j| {
        assert s[i + 1] == w[0];
      }
    }
    assert s[0] == j[0] && s[|s| - 1] == w[|w| - 1];
  }

  /** The first `n` of a sequence of words, joined by single spaces, split back into those. */
  lemma WordsJoinPrefix(ws: seq<string>, n: nat)
    requires AllWords(ws)
    ensures Words(Join(ws[..Min(n, |ws|)], " ")) == ws[..Min(n, |ws|)]
    ensures |Words(Join(ws[..Min(n, |ws|)], " "))| <= n
  {
    var first := ws[..Min(n, |ws|)];
    assert forall w :: w in first ==> w in ws;
    WordsJoin(first);
  }

  // ---------------------------------------------------------------- preview list

  /** `_shorten_preview_list`: up to three names joined by `", "`, or the first three and a
      count of the others. */
  function ShortenPreviewList(rs: seq<string>): (r: string)
    ensures |rs| <= 3 ==> r == Join(rs, ", ")
    ensures |rs| > 3 ==> StartsWith(r, Join(rs[..3], ", ") + ", and ") && EndsWith(r, " others...")
  {
    if rs == [] then ""
    else if |rs| > 3 then
      var r := rs[0] + ", " + rs[1] + ", " + rs[2] + ", and " + Decimal(|rs| - 3) + " others...";
      JoinFirstThree(rs, ", ");
      assert r == Join(rs[..3], ", ") + ", and " + (Decimal(|rs| - 3) + " others...");
      assert r[..|Join(rs[..3], ", ") + ", and "|] == Join(rs[..3], ", ") + ", and ";
      r
    else Join(rs, ", ")
  }

  lemma JoinFirstThree(rs: seq<string>, sep: string)
    requires |rs| >= 3
    ensures Join(rs[..3], sep) == rs[0] + sep + rs[1] + sep + rs[2]
  {
    var three := rs[..3];
    assert three[..2] == [rs[0], rs[1]] && three[..2][..1] == [rs[0]];
    assert Join(three[..2][..1], sep) == rs[0];
    assert Join(three[..2], sep) == rs[0] + sep + rs[1];
  }

  /** For a long list the preview counts exactly the recipients it does not name. */
  lemma PreviewCountsOthers(rs: seq<string>)
    requires |rs| > 3
    ensures exists digits :: ShortenPreviewList(rs) == Join(rs[..3], ", ") + ", and " + digits + " others..."
                             && (forall i :: 0 <= i < |digits| ==> IsDigit(digits[i]))
                             && DigitsValue(digits) == |rs| - 3
  {
    var digits := Decimal(|rs| - 3);
    DecimalRoundTrip(|rs| - 3);
    JoinFirstThree(rs, ", ");
    assert ShortenPreviewList(rs) == Join(rs[..3], ", ") + ", and " + digits + " others...";
  }

  // ---------------------------------------------------------------- subject prefixes

  /** ASCII lower-casing, which is all `re.IGNORECASE` needs for the letters of re/fw/fwd. */
  function Lower(c: char): char { if 'A' <= c <= 'Z' then (c as int + 32) as char else c }

  /** `s` starts with the lower-case `word`, ignoring case. */
  predicate StartsWithIgnoreCase(s: string, word: string) {
    |word| <= |s| && forall i :: 0 <= i < |word| ==> Lower(s[i]) == word[i]
  }

  /** After a prefix word of length `n`: `\s*:\s*`, giving the length of the whole match, or
      0 when there is no colon. */
  function AfterWord(s: string, n: nat): (r: nat)
    requires n <= |s|
    ensures r == 0 || (n < r <= |s| && (r == |s| || !IsSpace(s[r])))
  {
    var j := SkipSpace(s, n);
    if j < |s| && s[j] == ':' then SkipSpace(s, j + 1) else 0
  }

  /** The length of the match of `^(?:(re|fw|fwd)\s*:\s*)` (ignoring case) on `s`, 0 when
      there is none. The alternatives are tried in order, so `fwd:` is reached after `fw`
      fails on the `d`. */
  function ReplyPrefixLen(s: string): (r: nat)
    ensures r <= |s|
    ensures r > 0 ==> r == |s| || !IsSpace(s[r])
  {
    var a := if StartsWithIgnoreCase(s, "re") then AfterWord(s, 2) else 0;
    if a > 0 then a else
    var b := if StartsWithIgnoreCase(s, "fw") then AfterWord(s, 2) else 0;
    if b > 0 then b else
    if StartsWithIgnoreCase(s, "fwd") then AfterWord(s, 3) else 0
  }

  /** The `while True` loop of `_strip_subject_prefixes`: remove a prefix until none is left.
      Each pass strictly shortens the text, which is why the loop ends. */
  function StripPrefixes(s: string): (r: string)
    ensures ReplyPrefixLen(r) == 0
    ensures |r| <= |s| && r == s[|s| - |r|..]
    ensures (s == [] || (!IsSpace(s[0]) && !IsSpace(s[|s| - 1]))) ==> (r == [] || (!IsSpace(r[0]) && !IsSpace(r[|r| - 1])))
    decreases |s|
  {
    var p := ReplyPrefixLen(s);
    if p == 0 then s else StripPrefixes(s[p..])
  }

  /** `_strip_subject_prefixes(subject)`. */
  function StripSubjectPrefixes(subject: string): (r: string)
    ensures subject == "" ==> r == ""
    ensures ReplyPrefixLen(r) == 0
    ensures r == [] || (!IsSpace(r[0]) && !IsSpace(r[|r| - 1]))
  {
    if subject == "" then "" else StripPrefixes(Strip(subject))
  }

  /** Stripping the prefixes twice is stripping them once. */
  lemma StripSubjectPrefixesIdempotent(subject: string)
    ensures StripSubjectPrefixes(StripSubjectPrefixes(subject)) == StripSubjectPrefixes(subject)
  {
    var r := StripSubjectPrefixes(subject);
    if r != "" {
      StripNoop(r);
    }
  }

  /** A subject without a reply prefix comes back stripped and otherwise unchanged. */
  lemma StripSubjectPrefixesNoPrefix(subject: string)
    requires ReplyPrefixLen(Strip(subject)) == 0
    ensures StripSubjectPrefixes(subject) == Strip(subject)
  {
  }

  /** `_strip_subject_prefixes`, with its loop. */
  method StripSubjectPrefixesLoop(subject: string) returns (r: string)
    ensures r == StripSubjectPrefixes(subject)
  {
    if subject == "" {
      return "";
    }
    var s := Strip(subject);
    while true
      invariant StripPrefixes(s) == StripSubjectPrefixes(subject)
      decreases |s|
    {
      var newS := s[ReplyPrefixLen(s)..];
      if newS == s {
        break;
      }
      s := newS;
    }
    r := s;
  }
}
