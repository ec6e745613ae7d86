/** The reverse parser's `parse_emails` (read_md_email.py): the Markdown document is split
    into one chunk per `## Email N` header, the header fields and the content of each chunk are
    found by the regular expressions of the source, written here as scanners, and the emails
    are sorted newest first. */
module MdParse {
  import opened Results
  import opened Text
  import opened Sorting
  import opened DateTimes
  import opened MdText
  import opened Recipients

  // ---------------------------------------------------------------- splitting into chunks

  /** `^` in multi-line mode: the start of the text or of a line. */
  predicate LineStart(t: string, p: nat) { p == 0 || (p <= |t| && t[p - 1] == '\n') }

  /** Where the number of a `## Email` header at `p` starts: after the whitespace run. */
  function NumberStart(t: string, p: nat): (d: nat)
    requires p + 8 <= |t|
    ensures p + 8 <= d <= |t|
  {
    SkipSpace(t, p + 8)
  }

  /** `^## Email\s+\d+\s*$` (multi-line) matches at `p`: a line start, the words, at least one
      whitespace character, the digits, then only whitespace up to the end of that line. */
  predicate HeaderAt(t: string, p: nat) {
    && LineStart(t, p) && StartsAt(t, p, "## Email")
    && var d := NumberStart(t, p);
       && d > p + 8 && d < |t| && IsDigit(t[d])
       && var e := SkipDigits(t, d);
          SkipSpace(t, e) >= LineEnd(t, e)
  }

  /** The first header at or after `i`, or `|t|` when there is none. */
  function NextHeader(t: string, i: nat): (r: nat)
    requires i <= |t|
    ensures i <= r <= |t|
    decreases |t| - i
  {
    if i == |t| then |t| else if HeaderAt(t, i) then i else NextHeader(t, i + 1)
  }

  /** `NextHeader` finds a header, and the first one. */
  lemma {:induction false} NextHeaderFacts(t: string, i: nat)
    requires i <= |t|
    ensures NextHeader(t, i) < |t| ==> HeaderAt(t, NextHeader(t, i))
    ensures forall p :: i <= p < NextHeader(t, i) ==> !HeaderAt(t, p)
    decreases |t| - i
  {
    if i < |t| && !HeaderAt(t, i) {
      NextHeaderFacts(t, i + 1);
    }
  }

  /** The chunks from the header at `h` on, each running up to the next header. */
  function ChunksFrom(t: string, h: nat): (cs: seq<string>)
    requires h <= |t|
    decreases |t| - h
  {
    if h == |t| then []
    else
      var n := NextHeader(t, h + 1);
      [t[h..n]] + ChunksFrom(t, n)
  }

  /** `re.split(r"(?=^## Email\s+\d+\s*$)", md_text, flags=re.MULTILINE)`: the text before the
      first header, then one chunk per header. */
  function Chunks(t: string): (cs: seq<string>)
    ensures cs != []
  {
    var h := NextHeader(t, 0);
    [t[..h]] + ChunksFrom(t, h)
  }

  /** The chunks laid end to end. */
  function Flatten(cs: seq<string>): string
  {
    if cs == [] then [] else cs[0] + Flatten(cs[1..])
  }

  lemma {:induction false} ChunksFromCover(t: string, h: nat)
    requires h <= |t|
    ensures Flatten(ChunksFrom(t, h)) == t[h..]
    decreases |t| - h
  {
    if h < |t| {
      var n := NextHeader(t, h + 1);
      ChunksFromCover(t, n);
      FlattenCons(t[h..n], ChunksFrom(t, n));
      SliceSplit(t, h, n);
    }
  }

  /** Laying out a chunk followed by others puts that chunk first. */
  lemma FlattenCons(c: string, rest: seq<string>)
    ensures Flatten([c] + rest) == c + Flatten(rest)
  {
    assert ([c] + rest)[1..] == rest;
  }

  /** Splitting loses and repeats nothing: the chunks put together are the document. */
  lemma ChunksCover(t: string)
    ensures Flatten(Chunks(t)) == t
  {
    var h := NextHeader(t, 0);
    ChunksFromCover(t, h);
    var cs := Chunks(t);
    assert cs[1..] == ChunksFrom(t, h);
    assert t == t[..h] + t[h..];
  }

  /** Two headers are at least a header's words apart: the words hold no line break. */
  lemma HeadersApart(t: string, h: nat, p: nat)
    requires HeaderAt(t, h) && HeaderAt(t, p) && h < p
    ensures h + 8 < p
  {
    forall i | h <= i < h + 8 ensures t[i] != '\n' {
      assert t[i] == t[h..h + 8][i - h];
    }
    assert t[p - 1] == '\n';
  }

  /** The chunks from a header on each start with the words of a header. */
  lemma {:induction false} ChunksFromStartWithHeader(t: string, h: nat)
    requires h <= |t|
    requires h < |t| ==> HeaderAt(t, h)
    ensures forall i :: 0 <= i < |ChunksFrom(t, h)| ==> StartsWith(ChunksFrom(t, h)[i], "## Email")
    decreases |t| - h
  {
    if h < |t| {
      var n := NextHeader(t, h + 1);
      NextHeaderFacts(t, h + 1);
      if n < |t| {
        HeadersApart(t, h, n);
      }
      assert n >= h + 8;
      var c := t[h..n];
      assert c[0..8] == t[h..h + 8];
      ChunksFromStartWithHeader(t, n);
      var cs := ChunksFrom(t, h);
      assert cs == [c] + ChunksFrom(t, n);
    }
  }

  /** Every chunk after the first starts with `## Email`: the split keeps each header with
      the text that follows it. */
  lemma ChunksStartWithHeader(t: string)
    ensures forall i :: 1 <= i < |Chunks(t)| ==> StartsWith(Chunks(t)[i], "## Email")
  {
    var h := NextHeader(t, 0);
    NextHeaderFacts(t, 0);
    ChunksFromStartWithHeader(t, h);
    assert Chunks(t)[1..] == ChunksFrom(t, h);
  }

  // ---------------------------------------------------------------- the header number

  /** `re.search(r"^## Email\s+(\d+)\s*$", chunk, flags=re.MULTILINE)` and `int()` of the
      group: the number of the first header of the chunk. */
  function NumberOf(chunk: string): Option<nat>
  {
    var p := NextHeader(chunk, 0);
    NextHeaderFacts(chunk, 0);
    if p < |chunk| then
      var d := NumberStart(chunk, p);
      Some(DigitsValue(chunk[d..SkipDigits(chunk, d)]))
    else None
  }

  /** The header the forward converter writes, `## Email N` on its own line, is read back
      as the number `N`. */
  lemma NumberOfHeader(n: nat, rest: string)
    ensures NumberOf("## Email " + Decimal(n) + "\n" + rest) == Some(n)
  {
    var c := "## Email " + Decimal(n) + "\n" + rest;
    var dn := Decimal(n);
    var e := 9 + |dn|;
    assert c[..8] == "## Email" && c[8] == ' ' && c[e] == '\n';
    assert forall k :: 9 <= k < e ==> c[k] == dn[k - 9];
    assert c[9] == dn[0] && SkipSpace(c, 9) == 9;
    assert NumberStart(c, 0) == 9;
    assert SkipDigits(c, 9) == e;
    assert LineEnd(c, e) == e;
    assert HeaderAt(c, 0);
    assert c[9..e] == dn;
    DecimalRoundTrip(n);
  }

  // ---------------------------------------------------------------- field patterns

  /** What `(.+)` matches: at least one character, and no line break. */
  predicate OneLine(s: string) { s != [] && forall i :: 0 <= i < |s| ==> s[i] != '\n' }

  /** The largest `g` in `[lo, hi)` with `t[g] != '\n'`. */
  function LastNonNewline(t: string, lo: nat, hi: nat): (r: Option<nat>)
    requires hi <= |t|
    ensures r.Some? ==> lo <= r.value < hi && t[r.value] != '\n'
    ensures r.Some? ==> forall g :: r.value < g < hi ==> t[g] == '\n'
    ensures r.None? ==> forall g :: lo <= g < hi ==> t[g] == '\n'
    decreases hi
  {
    if hi <= lo then None
    else if t[hi - 1] != '\n' then Some(hi - 1)
    else LastNonNewline(t, lo, hi - 1)
  }

  /** `\s*(.+)` at `c`, without DOTALL: the rest of the line after the whitespace run. When
      only whitespace follows to the end of the text, the greedy `\s*` gives back its last
      character that is not a line break; when there is none, there is no match at `c`. */
  function LineAfter(t: string, c: nat): (r: Option<string>)
    requires c <= |t|
  {
    var f := SkipSpace(t, c);
    if f < |t| then Some(t[f..LineEnd(t, f)])
    else match LastNonNewline(t, c, f)
      case Some(g) => Some(t[g..LineEnd(t, g)])
      case None => None
  }

  /** What `(.+)` matches is one line, and not empty. */
  lemma LineAfterOneLine(t: string, c: nat)
    requires c <= |t|
    ensures LineAfter(t, c).Some? ==> OneLine(LineAfter(t, c).value)
  {
    var f := SkipSpace(t, c);
    if f < |t| {
      RestOfLine(t, f);
    } else if LastNonNewline(t, c, f).Some? {
      RestOfLine(t, LastNonNewline(t, c, f).value);
    }
  }

  /** `key\s*(.+)` searched from `pos`: the first occurrence of the key that is followed by
      a match. */
  function LineField(t: string, key: string, pos: nat): (r: Option<string>)
    requires |key| > 0
    decreases |t| + 1 - pos, 1
  {
    var k := FindFrom(t, key, pos);
    if k < 0 then None else LineAtKey(t, key, k)
  }

  /** The match at the key found at `k`, or, when no line follows it, the search after `k`. */
  function LineAtKey(t: string, key: string, k: nat): (r: Option<string>)
    requires |key| > 0 && k + |key| <= |t|
    decreases |t| + 1 - k, 0
  {
    match LineAfter(t, k + |key|)
      case Some(v) => Some(v)
      case None => LineField(t, key, k + 1)
  }

  /** What is found is one line, and not empty. */
  lemma {:induction false} LineFieldOneLine(t: string, key: string, pos: nat)
    requires |key| > 0
    ensures LineField(t, key, pos).Some? ==> OneLine(LineField(t, key, pos).value)
    decreases |t| + 1 - pos, 1
  {
    var k := FindFrom(t, key, pos);
    if k >= 0 {
      LineAtKeyOneLine(t, key, k);
    }
  }

  lemma {:induction false} LineAtKeyOneLine(t: string, key: string, k: nat)
    requires |key| > 0 && k + |key| <= |t|
    ensures LineAtKey(t, key, k).Some? ==> OneLine(LineAtKey(t, key, k).value)
    decreases |t| + 1 - k, 0
  {
    if LineAfter(t, k + |key|).Some? {
      LineAfterOneLine(t, k + |key|);
    } else {
      LineFieldOneLine(t, key, k + 1);
    }
  }

  /** From a character that is not a line break to the end of its line. */
  lemma RestOfLine(t: string, g: nat)
    requires g < |t| && t[g] != '\n'
    ensures OneLine(t[g..LineEnd(t, g)])
  {
  }

  /** `$` without MULTILINE: the end of the text, or just before a final line break. */
  predicate AtEnd(t: string, e: nat) { e == |t| || (e + 1 == |t| && t[e] == '\n') }

  /** One of `stops` occurs at `e`. */
  predicate AnyStartsAt(t: string, e: nat, stops: seq<string>) {
    stops != [] && (StartsAt(t, e, stops[0]) || AnyStartsAt(t, e, stops[1..]))
  }

  /** The look-ahead of a lazy group: a stop pattern, or the end. */
  predicate StopAt(t: string, e: nat, stops: seq<string>) { AtEnd(t, e) || AnyStartsAt(t, e, stops) }

  /** Where a lazy `(.+?)` followed by the look-ahead stops, trying ends from `e` upwards. */
  function LazyEnd(t: string, e: nat, stops: seq<string>): (r: nat)
    requires e <= |t|
    ensures e <= r <= |t| && StopAt(t, r, stops)
    ensures forall k :: e <= k < r ==> !StopAt(t, k, stops)
    decreases |t| - e
  {
    if StopAt(t, e, stops) then e else LazyEnd(t, e + 1, stops)
  }

  /** `key\s*(.+?)(?=stop|...|$)` with DOTALL, searched from `pos`. */
  function LazyField(t: string, key: string, stops: seq<string>, pos: nat): (r: Option<string>)
    requires |key| > 0
    ensures r.Some? ==> r.value != []
    decreases |t| + 1 - pos
  {
    var k := FindFrom(t, key, pos);
    if k < 0 then None
    else
      var c := k + |key|;
      var f := SkipSpace(t, c);
      if f < |t| then Some(t[f..LazyEnd(t, f + 1, stops)])
      else if f > c then Some(t[f - 1..])
      else LazyField(t, key, stops, k + 1)
  }

  const ToStops: seq<string> := ["\n**CC**:", "\n**Subject**:", "\n###"]
  const CcStops: seq<string> := ["\n**Subject**:", "\n###"]
  const ContentStops: seq<string> := ["\n---", "\n## ", "\n### Attachments"]

  /** The largest `x` in `[lo, hi)` with `t[x] == '\n'` and a character after it. */
  function LastNewline(t: string, lo: nat, hi: nat): (r: Option<nat>)
    requires hi <= |t|
    ensures r.Some? ==> lo <= r.value < hi && t[r.value] == '\n' && r.value + 1 < |t|
    decreases hi
  {
    if hi <= lo then None
    else if t[hi - 1] == '\n' && hi < |t| then Some(hi - 1)
    else LastNewline(t, lo, hi - 1)
  }

  /** `### Content\s*\n(.+?)(?=\n-{3,}|\n## |\n### Attachments|$)` with DOTALL: the group
      starts after the last line break of the whitespace that follows the heading. */
  function ContentField(t: string, pos: nat): (r: Option<string>)
    ensures r.Some? ==> r.value != []
    decreases |t| + 1 - pos, 1
  {
    var k := FindFrom(t, "### Content", pos);
    if k < 0 then None else ContentAfterHeading(t, k)
  }

  /** The content group after the heading found at `k`; when no line break follows the
      heading's whitespace, the search goes on after `k`. */
  function ContentAfterHeading(t: string, k: nat): (r: Option<string>)
    requires k + 11 <= |t|
    ensures r.Some? ==> r.value != []
    decreases |t| + 1 - k, 0
  {
    match LastNewline(t, k + 11, SkipSpace(t, k + 11))
      case Some(x) => Some(ContentGroup(t, x))
      case None => ContentField(t, k + 1)
  }

  /** The lazy group that starts after the line break at `x` and ends where the look-ahead
      first succeeds. */
  function ContentGroup(t: string, x: nat): (r: string)
    requires x + 1 < |t|
    ensures r != []
  {
    t[x + 1..LazyEnd(t, x + 2, ContentStops)]
  }

  // ---------------------------------------------------------------- quoted history

  /** `^_{6,}` (multi-line) matches at `p`: six underscores at a line start. */
  predicate SepLineAt(s: string, p: nat) {
    LineStart(s, p) && p + 6 <= |s| && forall k :: p <= k < p + 6 ==> s[k] == '_'
  }

  /** The first separator line at or after `i`, or `|s|`. */
  function FirstSepLine(s: string, i: nat): (r: nat)
    requires i <= |s|
    ensures i <= r <= |s|
    ensures r < |s| ==> SepLineAt(s, r)
    ensures forall p :: i <= p < r ==> !SepLineAt(s, p)
    decreases |s| - i
  {
    if i == |s| then |s| else if SepLineAt(s, i) then i else FirstSepLine(s, i + 1)
  }

  /** The 32-underscore token the parser also cuts at. */
  const Token: string := "________________________________"

  /** No separator line anywhere in `s`. */
  predicate NoSepLine(s: string) { forall p :: 0 <= p <= |s| ==> !SepLineAt(s, p) }

  /** A separator line of a prefix is one of the whole text. */
  lemma SepLinePrefix(s: string, n: nat, p: nat)
    requires n <= |s| && SepLineAt(s[..n], p)
    ensures SepLineAt(s, p) && p + 6 <= n
  {
  }

  /** An occurrence in a prefix is one in the whole text. */
  lemma StartsAtPrefix(s: string, n: nat, p: nat, pat: string)
    requires n <= |s| && StartsAt(s[..n], p, pat)
    ensures StartsAt(s, p, pat) && p + |pat| <= n
  {
    assert s[..n][p..p + |pat|] == s[p..p + |pat|];
  }

  /** Where the quoted history starts: the first line that starts with six underscores or,
      when there is none, the first 32-underscore token; `|raw|` when there is neither. */
  function CutAt(raw: string): (c: nat)
    ensures c <= |raw|
    ensures forall p :: 0 <= p < c ==> !SepLineAt(raw, p)
    ensures !NoSepLine(raw) ==> c < |raw| && SepLineAt(raw, c)
    ensures NoSepLine(raw) ==> (c < |raw| <==> Contains(raw, Token))
    ensures NoSepLine(raw) && c < |raw| ==> StartsAt(raw, c, Token)
    ensures NoSepLine(raw) ==> forall j :: 0 <= j < c ==> !StartsAt(raw, j, Token)
  {
    var p := FirstSepLine(raw, 0);
    if p < |raw| then p
    else
      assert NoSepLine(raw);
      var q := FindFrom(raw, Token, 0);
      FindFromFirst(raw, Token, 0);
      ContainsFromIff(raw, Token, 0);
      if q >= 0 then q else |raw|
  }

  /** Removing the quoted history: the content is cut at `CutAt(raw)` and the cut text is
      right-stripped, so what lies between the result and the cut is whitespace. The result
      is a prefix of the content; it is the content itself exactly when there is nothing to
      cut at; and no line of it starts with six underscores. */
  function Truncate(raw: string): (r: string)
    ensures |r| <= |raw| && r == raw[..|r|]
    ensures CutAt(raw) == |raw| ==> r == raw
    ensures CutAt(raw) < |raw| ==> |r| <= CutAt(raw) && (r == [] || !IsSpace(r[|r| - 1]))
    ensures CutAt(raw) < |raw| ==> forall i :: |r| <= i < CutAt(raw) ==> IsSpace(raw[i])
    ensures r == raw <==> NoSepLine(raw) && !Contains(raw, Token)
    ensures NoSepLine(r)
    ensures NoSepLine(raw) ==> !Contains(r, Token)
  {
    var c := CutAt(raw);
    if c < |raw| then
      var r := RStrip(raw[..c]);
      assert r == raw[..|r|];
      CutPrefixClean(raw, c, |r|);
      r
    else
      raw
  }

  /** A prefix that ends before the cut has no separator line, nor, when the text has no
      separator line, the token. */
  lemma CutPrefixClean(raw: string, c: nat, n: nat)
    requires c == CutAt(raw) && n <= c
    ensures NoSepLine(raw[..n])
    ensures NoSepLine(raw) ==> !Contains(raw[..n], Token)
  {
    forall q | 0 <= q <= n ensures !SepLineAt(raw[..n], q) {
      if SepLineAt(raw[..n], q) {
        SepLinePrefix(raw, n, q);
      }
    }
    if NoSepLine(raw) {
      ContainsFromIff(raw[..n], Token, 0);
      forall j | 0 <= j <= n - |Token| ensures !StartsAt(raw[..n], j, Token) {
        if StartsAt(raw[..n], j, Token) {
          StartsAtPrefix(raw, n, j, Token);
        }
      }
    }
  }

  /** A separator line right after the text `c`, itself free of them, cuts exactly there:
      what remains is `c` right-stripped. */
  lemma TruncateAtSepLine(c: string, rest: string)
    requires NoSepLine(c)
    ensures Truncate(c + "\n______" + rest) == RStrip(c)
  {
    var raw := c + "\n______" + rest;
    var n := |c| + 1;
    assert raw[|c|] == '\n';
    forall k | n <= k < n + 6 ensures raw[k] == '_' {
      assert raw[k] == "\n______"[k - |c|];
    }
    assert SepLineAt(raw, n);
    forall p | 0 <= p < n ensures !SepLineAt(raw, p) {
      SepLineBeforeBreak(c, rest, p);
    }
    FirstSepLineIs(raw, 0, n);
    assert raw[..n] == c + "\n";
    RStripSpaceSuffix(c, "\n");
  }

  /** Before the line break that ends `c`, a separator line would have to lie within `c`. */
  lemma SepLineBeforeBreak(c: string, rest: string, p: nat)
    requires NoSepLine(c) && p <= |c|
    ensures !SepLineAt(c + "\n______" + rest, p)
  {
    var raw := c + "\n______" + rest;
    assert raw[..|c|] == c;
    if p + 6 <= |c| {
      if SepLineAt(raw, p) {
        SepLineOfPrefix(raw, |c|, p);
      }
    } else {
      assert raw[|c|] == '\n';
    }
  }

  /** A separator line that ends within a prefix is one of the prefix. */
  lemma SepLineOfPrefix(s: string, n: nat, p: nat)
    requires p + 6 <= n <= |s| && SepLineAt(s, p)
    ensures SepLineAt(s[..n], p)
  {
  }

  /** The first separator line is the one with none before it. */
  lemma {:induction false} FirstSepLineIs(s: string, i: nat, n: nat)
    requires i <= n < |s| && SepLineAt(s, n)
    requires forall p :: i <= p < n ==> !SepLineAt(s, p)
    ensures FirstSepLine(s, i) == n
    decreases n - i
  {
    if i < n {
      FirstSepLineIs(s, i + 1, n);
    }
  }

  // ---------------------------------------------------------------- one chunk

  /** One parsed email, as the dictionary `parse_emails` builds. */
  datatype ParsedEmail = ParsedEmail(
    number: Option<nat>,
    dateIn: string,
    dateOut: string,
    date: Option<DateTime>,
    from: string,
    toList: seq<string>,
    ccList: seq<string>,
    subject: string,
    content: string)

  /** The `date_out` field is the minute rendering of the parsed date, and empty without one. */
  predicate DatesAgree(e: ParsedEmail) {
    if e.date.Some? then e.dateOut == FormatMinutes(e.date.value) else e.dateOut == ""
  }

  function OrEmpty(m: Option<string>): string { if m.Some? then m.value else "" }

  /** What the six searches of `parse_emails` find in one chunk. */
  datatype Fields = Fields(
    date: Option<string>,
    from: Option<string>,
    to: Option<string>,
    cc: Option<string>,
    subject: Option<string>,
    content: Option<string>)

  /** The six searches: date, sender and subject on their line, the lazy to and cc lists,
      and the content group. */
  function FindFields(chunk: string): Fields
  {
    Fields(
      LineField(chunk, "**Date**:", 0),
      LineField(chunk, "**From**:", 0),
      LazyField(chunk, "**To**:", ToStops, 0),
      LazyField(chunk, "**CC**:", CcStops, 0),
      LineField(chunk, "**Subject**:", 0),
      ContentField(chunk, 0))
  }

  /** A chunk is skipped when none of the date, sender, subject and content is found. */
  predicate Usable(f: Fields) {
    f.date.Some? || f.from.Some? || f.subject.Some? || f.content.Some?
  }

  /** The dictionary built from what was found: cleaned fields, the date parsed and
      re-rendered to minutes, the recipient lists parsed, the subject without reply and
      forward prefixes, and the content stripped and cut before the quoted history.
      `strptime` stands for `datetime.strptime(_, DATE_IN_FMT)`, `None` for its
      `ValueError`. */
  function MakeEmail(strptime: string -> Option<DateTime>, number: Option<nat>, f: Fields): (e: ParsedEmail)
    ensures DatesAgree(e)
    ensures e.date.Some? ==> e.dateIn != ""
    ensures Clean(e.from) && Clean(e.dateIn)
  {
    var dateRaw := if f.date.Some? then CleanWs(f.date.value) else "";
    var date := if dateRaw != "" then strptime(dateRaw) else None;
    ParsedEmail(
      number,
      dateRaw,
      if date.Some? then FormatMinutes(date.value) else "",
      date,
      if f.from.Some? then CleanWs(f.from.value) else "",
      ParseRecipients(OrEmpty(f.to)),
      ParseRecipients(OrEmpty(f.cc)),
      StripSubjectPrefixes(if f.subject.Some? then CleanWs(f.subject.value) else ""),
      Truncate(Strip(if f.content.Some? then Strip(f.content.value) else "")))
  }

  /** The date as read is the `Date` field cleaned, or empty without one; the date is what
      `strptime` makes of a non-empty one, and absent otherwise. */
  lemma MakeEmailDate(strptime: string -> Option<DateTime>, number: Option<nat>, f: Fields)
    ensures var e := MakeEmail(strptime, number, f);
      && e.dateIn == (if f.date.Some? then CleanWs(f.date.value) else "")
      && e.date == (if e.dateIn != "" then strptime(e.dateIn) else None)
  {
  }

  /** The body of the loop of `parse_emails` for one chunk: `None` when the chunk is blank or
      none of its date, sender, subject and content is found. */
  function ParseChunk(strptime: string -> Option<DateTime>, chunk: string): (r: Option<ParsedEmail>)
    ensures r.Some? <==> Strip(chunk) != "" && Usable(FindFields(chunk))
    ensures r.Some? ==> DatesAgree(r.value)
  {
    if Strip(chunk) == "" then None
    else
      var f := FindFields(chunk);
      if !Usable(f) then None else Some(MakeEmail(strptime, NumberOf(chunk), f))
  }

  /** Every email's `date_out` agrees with its date. */
  predicate AllAgree(es: seq<ParsedEmail>) { forall i :: 0 <= i < |es| ==> DatesAgree(es[i]) }

  lemma AgreeSnoc(es: seq<ParsedEmail>, e: ParsedEmail)
    requires AllAgree(es) && DatesAgree(e)
    ensures AllAgree(es + [e])
  {
    assert forall i :: 0 <= i < |es| ==> (es + [e])[i] == es[i];
  }

  /** The emails of the chunks, in chunk order. */
  function Collect(strptime: string -> Option<DateTime>, cs: seq<string>): (es: seq<ParsedEmail>)
    ensures |es| <= |cs|
  {
    if cs == [] then []
    else
      var init := Collect(strptime, cs[..|cs| - 1]);
      match ParseChunk(strptime, cs[|cs| - 1])
        case Some(e) => init + [e]
        case None => init
  }

  /** One more chunk adds its email, if it has one. */
  lemma CollectSnoc(strptime: string -> Option<DateTime>, cs: seq<string>, i: nat)
    requires i < |cs|
    ensures Collect(strptime, cs[..i + 1])
            == if ParseChunk(strptime, cs[i]).Some? then Collect(strptime, cs[..i]) + [ParseChunk(strptime, cs[i]).value]
               else Collect(strptime, cs[..i])
  {
    TakeSnoc(cs, i);
  }

  /** Every collected email was built by `MakeEmail`, so its dates agree. */
  lemma {:induction false} CollectAgree(strptime: string -> Option<DateTime>, cs: seq<string>)
    ensures AllAgree(Collect(strptime, cs))
  {
    if cs != [] {
      CollectAgree(strptime, cs[..|cs| - 1]);
      var r := ParseChunk(strptime, cs[|cs| - 1]);
      if r.Some? {
        AgreeSnoc(Collect(strptime, cs[..|cs| - 1]), r.value);
      }
    }
  }

  // ---------------------------------------------------------------- the whole document

  /** The sort key: newest first, then the undated ones. Sorting ascending by it is what
      `sort(key=timestamp or -inf, reverse=True)` does, equal keys keeping their order. */
  function NewestKey(e: ParsedEmail): int
  {
    if e.date.Some? then -Ord(e.date.value) else 1
  }

  /** `parse_emails(md_text)`. */
  function ParseEmails(strptime: string -> Option<DateTime>, md: string): seq<ParsedEmail>
  {
    SortByKey(Collect(strptime, Chunks(md)), NewestKey)
  }

  /** `parse_emails`, step by step: the loop over the chunks, then the sort. */
  method ParseEmailsLoop(strptime: string -> Option<DateTime>, md: string) returns (emails: seq<ParsedEmail>)
    ensures emails == ParseEmails(strptime, md)
  {
    var chunks := Chunks(md);
    var collected := CollectLoop(strptime, chunks);
    emails := SortByKey(collected, NewestKey);
  }

  /** The loop of `parse_emails` over the chunks, appending one email per usable chunk. */
  method CollectLoop(strptime: string -> Option<DateTime>, chunks: seq<string>) returns (emails: seq<ParsedEmail>)
    ensures emails == Collect(strptime, chunks)
  {
    emails := [];
    var i := 0;
    while i < |chunks|
      invariant 0 <= i <= |chunks|
      invariant emails == Collect(strptime, chunks[..i])
    {
      CollectSnoc(strptime, chunks, i);
      var parsed := ParseChunk(strptime, chunks[i]);
      if parsed.Some? {
        emails := emails + [parsed.value];
      }
      i := i + 1;
    }
    assert chunks[..i] == chunks;
  }

  /** Sorting by `NewestKey` puts the emails newest first and the undated ones last, keeps
      emails with equal dates in their order, loses and repeats none, and keeps every
      email's dates in agreement. */
  lemma NewestFirst(cs: seq<ParsedEmail>)
    ensures var es := SortByKey(cs, NewestKey);
      && multiset(es) == multiset(cs)
      && (forall i, j :: 0 <= i < j < |es| && es[i].date.Some? && es[j].date.Some?
            ==> !Before(es[i].date.value, es[j].date.value))
      && (forall i, j :: 0 <= i < j < |es| && es[i].date.None? ==> es[j].date.None?)
      && (forall k :: WithKey(es, NewestKey, k) == WithKey(cs, NewestKey, k))
      && (AllAgree(cs) ==> AllAgree(es))
  {
    var es := SortByKey(cs, NewestKey);
    NewestOrdered(es);
    if AllAgree(cs) {
      AgreeKept(cs, es);
    }
  }

  /** Emails ordered by `NewestKey` run from the newest date down, the undated ones last. */
  lemma NewestOrdered(es: seq<ParsedEmail>)
    requires SortedBy(es, NewestKey)
    ensures forall i, j :: 0 <= i < j < |es| && es[i].date.Some? && es[j].date.Some?
              ==> !Before(es[i].date.value, es[j].date.value)
    ensures forall i, j :: 0 <= i < j < |es| && es[i].date.None? ==> es[j].date.None?
  {
    forall i, j | 0 <= i < j < |es| && es[i].date.Some? && es[j].date.Some?
      ensures !Before(es[i].date.value, es[j].date.value)
    {
      assert NewestKey(es[i]) <= NewestKey(es[j]);
      OrdOrder(es[i].date.value, es[j].date.value);
    }
    forall i, j | 0 <= i < j < |es| && es[i].date.None?
      ensures es[j].date.None?
    {
      assert NewestKey(es[i]) <= NewestKey(es[j]);
    }
  }

  /** A rearrangement keeps every email's dates in agreement. */
  lemma AgreeKept(cs: seq<ParsedEmail>, es: seq<ParsedEmail>)
    requires AllAgree(cs) && multiset(es) == multiset(cs)
    ensures AllAgree(es)
  {
    forall i | 0 <= i < |es| ensures DatesAgree(es[i]) {
      assert es[i] in multiset(cs);
      var j :| 0 <= j < |cs| && cs[j] == es[i];
    }
  }

  /** `parse_emails` returns the emails of the document newest first, the undated ones last,
      emails with equal dates in document order, each usable chunk's email exactly once,
      and every `date_out` the minute rendering of its date. */
  lemma ParseEmailsOrder(strptime: string -> Option<DateTime>, md: string)
    ensures var es := ParseEmails(strptime, md);
      && multiset(es) == multiset(Collect(strptime, Chunks(md)))
      && (forall i, j :: 0 <= i < j < |es| && es[i].date.Some? && es[j].date.Some?
            ==> !Before(es[i].date.value, es[j].date.value))
      && (forall i, j :: 0 <= i < j < |es| && es[i].date.None? ==> es[j].date.None?)
      && (forall k :: WithKey(es, NewestKey, k) == WithKey(Collect(strptime, Chunks(md)), NewestKey, k))
      && AllAgree(es)
  {
    CollectAgree(strptime, Chunks(md));
    NewestFirst(Collect(strptime, Chunks(md)));
  }
}
