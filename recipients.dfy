/** Recipient lists of the reverse parser (read_md_email.py): `_normalize_name_email_glue`
    and `_parse_recipients_list`. Each regular expression is a scanner over the text whose
    result is the match Python's backtracking engine finds. */
module Recipients {
  import opened Results
  import opened Text
  import opened MdText

  // ---------------------------------------------------------------- _normalize_name_email_glue

  predicate IsBreak(c: char) { c == '\r' || c == '\n' || c == '\t' }

  predicate NoBreaks(s: string) { forall c :: c in s ==> !IsBreak(c) }

  /** The first index at or after `i` that does not hold `\r`, `\n` or `\t` (or `|s|`). */
  function SkipBreaks(s: string, i: nat): (r: nat)
    requires i <= |s|
    ensures i <= r <= |s|
    ensures r == |s| || !IsBreak(s[r])
    decreases |s| - i
  {
    if i < |s| && IsBreak(s[i]) then SkipBreaks(s, i + 1) else i
  }

  /** `re.sub(r"[\r\n\t]+", " ", s)`: each run of line breaks and tabs becomes one space. */
  function CollapseBreaks(s: string): (r: string)
    ensures NoBreaks(r)
    decreases |s|
  {
    if s == [] then []
    else if IsBreak(s[0]) then " " + CollapseBreaks(s[SkipBreaks(s, 0)..])
    else [s[0]] + CollapseBreaks(s[1..])
  }

  /** Where `\b,\s*(<[^>]+>)` matches at `i`: a comma right after a word character, optional
      whitespace, then `<`, at least one character other than `>`, and `>`. The result is the
      index of that `>`. */
  function GlueAt(s: string, i: nat): (r: Option<nat>)
    ensures r.Some? ==> i < r.value < |s|
  {
    if 0 < i < |s| && s[i] == ',' && IsWordChar(s[i - 1]) then
      var j := SkipSpace(s, i + 1);
      if j < |s| && s[j] == '<' then
        var g := CloseAfter(s, j + 1);
        if j + 2 <= g < |s| then Some(g) else None
      else None
    else None
  }

  /** `re.sub(r"\b,\s*(<[^>]+>)", r" \1", s)`, scanning from index `i`. */
  function GlueFrom(s: string, i: nat): (r: string)
    ensures NoBreaks(s) ==> NoBreaks(r)
    decreases |s| - i
  {
    if i >= |s| then []
    else match GlueAt(s, i)
      case Some(g) =>
        var kept := s[SkipSpace(s, i + 1)..g + 1];
        assert NoBreaks(s) ==> NoBreaks(kept) by {
          assert forall c :: c in kept ==> c in s;
        }
        " " + kept + GlueFrom(s, g + 1)
      case None => [s[i]] + GlueFrom(s, i + 1)
  }

  /** No whitespace character is followed by another one. */
  predicate NoDoubleSpace(s: string) {
    forall i :: 0 <= i < |s| - 1 ==> !(IsSpace(s[i]) && IsSpace(s[i + 1]))
  }

  /** `re.sub(r"\s{2,}", " ", s)`: runs of two or more whitespace characters become one space;
      a single whitespace character is kept as it is. */
  function CollapseLongRuns(s: string): (r: string)
    ensures NoBreaks(s) ==> NoBreaks(r)
    ensures r != [] ==> s != [] && (IsSpace(r[0]) <==> IsSpace(s[0]))
    ensures NoDoubleSpace(r)
    decreases |s|
  {
    if s == [] then []
    else if IsSpace(s[0]) then
      var e := SkipSpace(s, 0);
      if e >= 2 then " " + CollapseLongRuns(s[e..])
      else [s[0]] + CollapseLongRuns(s[1..])
    else [s[0]] + CollapseLongRuns(s[1..])
  }

  /** A slice keeps the no-double-space property. */
  lemma NoDoubleSpaceSlice(s: string, a: nat, b: nat)
    requires NoDoubleSpace(s) && a <= b <= |s|
    ensures NoDoubleSpace(s[a..b])
  {
    var t := s[a..b];
    forall i | 0 <= i < |t| - 1 ensures !(IsSpace(t[i]) && IsSpace(t[i + 1])) {
      assert t[i] == s[a + i] && t[i + 1] == s[a + i + 1];
    }
  }

  /** `_normalize_name_email_glue(s)`: line breaks and tabs become spaces, the comma of
      "Name, <email>" goes, whitespace runs shrink to one space, and the ends are stripped. */
  function NormalizeGlue(s: string): (r: string)
    ensures NoBreaks(r)
    ensures r == [] || (!IsSpace(r[0]) && !IsSpace(r[|r| - 1]))
    ensures NoDoubleSpace(r)
  {
    var c := CollapseLongRuns(GlueFrom(CollapseBreaks(s), 0));
    NoDoubleSpaceStrip(c);
    Strip(c)
  }

  /** Stripping keeps the no-double-space property. */
  lemma NoDoubleSpaceStrip(c: string)
    requires NoDoubleSpace(c)
    ensures NoDoubleSpace(Strip(c))
  {
    var l := LStrip(c);
    NoDoubleSpaceSlice(c, |c| - |l|, |c|);
    NoDoubleSpaceSlice(l, 0, |RStrip(l)|);
  }

  // ---------------------------------------------------------------- Name <email>

  predicate IsSep(c: char) { c == ',' || c == ';' }

  /** The characters of `[^<>",;]`. */
  predicate NameChar(c: char) { c != '<' && c != '>' && c != '"' && !IsSep(c) }

  predicate NameChars(s: string) { forall c :: c in s ==> NameChar(c) }

  /** The first index at or after `i` that is not a name character (or `|s|`). */
  function NameEnd(s: string, i: nat): (r: nat)
    requires i <= |s|
    ensures i <= r <= |s|
    ensures forall k :: i <= k < r ==> NameChar(s[k])
    ensures r == |s| || !NameChar(s[r])
    decreases |s| - i
  {
    if i < |s| && NameChar(s[i]) then NameEnd(s, i + 1) else i
  }

  /** One match of `(?:^|[;,])\s*([^<>",;]+?)\s*<([^>]+)>`: its span and its two groups. */
  datatype NameEmailHit = NameEmailHit(start: nat, end: nat, name: string, email: string)

  /** `\s*([^<>",;]+?)\s*<([^>]+)>` tried at `q`. The name characters run up to `<`; the lazy
      name group is that run without its whitespace at either end, except that a run of
      whitespace only gives up its last character to the group, which needs one. */
  function TailAt(s: string, start: nat, q: nat): (r: Option<NameEmailHit>)
    requires start <= q <= |s|
    ensures r.Some? ==> r.value.start == start && q < r.value.end <= |s|
    ensures r.Some? ==> NameChars(r.value.name)
  {
    var l := NameEnd(s, q);
    if l < |s| && s[l] == '<' then
      var g := CloseAfter(s, l + 1);
      if l + 2 <= g < |s| then
        var w := SkipSpace(s, q);
        if w < l then
          var name := RStrip(s[w..l]);
          assert forall c :: c in name ==> c in s[q..l];
          Some(NameEmailHit(start, g + 1, name, s[l + 1..g]))
        else if l > q then
          Some(NameEmailHit(start, g + 1, s[l - 1..l], s[l + 1..g]))
        else None
      else None
    else None
  }

  /** The match starting at `p`, if any: the `^` alternative is tried before `[;,]`. */
  function NameEmailAt(s: string, p: nat): (r: Option<NameEmailHit>)
    requires p <= |s|
    ensures r.Some? ==> r.value.start == p && p < r.value.end <= |s|
    ensures r.Some? ==> NameChars(r.value.name)
  {
    var caret := if p == 0 then TailAt(s, p, 0) else None;
    if caret.Some? then caret
    else if p < |s| && IsSep(s[p]) then TailAt(s, p, p + 1)
    else None
  }

  /** `name_email_pat.finditer(s)`, from position `p`: the matches, left to right, each
      search resuming where the previous match ended. */
  function NameEmailScan(s: string, p: nat): (hits: seq<NameEmailHit>)
    requires p <= |s|
    ensures forall h :: h in hits ==> p <= h.start < h.end <= |s|
    ensures forall h :: h in hits ==> NameChars(h.name)
    decreases |s| - p
  {
    if p >= |s| then []
    else match NameEmailAt(s, p)
      case Some(h) => [h] + NameEmailScan(s, h.end)
      case None => NameEmailScan(s, p + 1)
  }

  /** `f"{name} <{email}>"` with both groups cleaned. */
  function Item(h: NameEmailHit): string
  {
    CleanWs(h.name) + " <" + CleanWs(h.email) + ">"
  }

  function Items(hits: seq<NameEmailHit>): seq<string>
  {
    if hits == [] then [] else Items(hits[..|hits| - 1]) + [Item(hits[|hits| - 1])]
  }

  /** One more match adds its item at the end. */
  lemma ItemsSnoc(hits: seq<NameEmailHit>, k: nat)
    requires k < |hits|
    ensures Items(hits[..k + 1]) == Items(hits[..k]) + [Item(hits[k])]
  {
    TakeSnoc(hits, k);
  }

  // ---------------------------------------------------------------- masking

  /** Index `i` lies in the span of one of `hits`. */
  predicate Covered(hits: seq<NameEmailHit>, i: int) {
    hits != [] && (Covered(hits[..|hits| - 1], i) || hits[|hits| - 1].start <= i < hits[|hits| - 1].end)
  }

  /** `s` with every character inside a matched span replaced by `"\0"`. */
  function Masked(s: string, hits: seq<NameEmailHit>): (m: string)
    ensures |m| == |s|
    ensures forall i :: 0 <= i < |s| ==> m[i] == (if Covered(hits, i) then '\0' else s[i])
  {
    seq(|s|, i requires 0 <= i < |s| => if Covered(hits, i) then '\0' else s[i])
  }

  /** The masking loops of `_parse_recipients_list`, on a character array. */
  method MaskSpans(s: string, hits: seq<NameEmailHit>) returns (masked: string)
    requires forall h :: h in hits ==> h.start <= h.end <= |s|
    ensures masked == Masked(s, hits)
  {
    var a := new char[|s|](i requires 0 <= i < |s| => s[i]);
    var k := 0;
    while k < |hits|
      invariant 0 <= k <= |hits|
      invariant forall i :: 0 <= i < |s| ==> a[i] == (if Covered(hits[..k], i) then '\0' else s[i])
    {
      var h := hits[k];
      assert h in hits;
      var i := h.start;
      while i < h.end
        invariant h.start <= i <= h.end
        invariant forall j :: 0 <= j < |s| ==> a[j] == (if Covered(hits[..k], j) || h.start <= j < i then '\0' else s[j])
      {
        a[i] := '\0';
        i := i + 1;
      }
      TakeSnoc(hits, k);
      k := k + 1;
    }
    assert hits[..k] == hits;
    masked := a[..];
  }

  // ---------------------------------------------------------------- bare addresses

  /** `[A-Za-z0-9._%+-]`. */
  predicate LocalChar(c: char) {
    IsAsciiLetter(c) || IsDigit(c) || c == '.' || c == '_' || c == '%' || c == '+' || c == '-'
  }

  /** `[A-Za-z0-9.-]`. */
  predicate DomainChar(c: char) { IsAsciiLetter(c) || IsDigit(c) || c == '.' || c == '-' }

  function SkipLocal(s: string, i: nat): (r: nat)
    requires i <= |s|
    ensures i <= r <= |s|
    ensures forall k :: i <= k < r ==> LocalChar(s[k])
    ensures r == |s| || !LocalChar(s[r])
    decreases |s| - i
  {
    if i < |s| && LocalChar(s[i]) then SkipLocal(s, i + 1) else i
  }

  function SkipDomain(s: string, i: nat): (r: nat)
    requires i <= |s|
    ensures i <= r <= |s|
    ensures forall k :: i <= k < r ==> DomainChar(s[k])
    ensures r == |s| || !DomainChar(s[r])
    decreases |s| - i
  {
    if i < |s| && DomainChar(s[i]) then SkipDomain(s, i + 1) else i
  }

  function SkipLetters(s: string, i: nat): (r: nat)
    requires i <= |s|
    ensures i <= r <= |s|
    ensures forall k :: i <= k < r ==> IsAsciiLetter(s[k])
    ensures r == |s| || !IsAsciiLetter(s[r])
    decreases |s| - i
  {
    if i < |s| && IsAsciiLetter(s[i]) then SkipLetters(s, i + 1) else i
  }

  /** Backtracking the greedy domain run `[A-Za-z0-9.-]+` from its end: the first dot, going
      down from `k` to `lo`, that two letters follow; the result is where the greedy
      `[A-Za-z]{2,}` after it stops. */
  function DotBack(s: string, lo: nat, k: nat): (r: Option<nat>)
    requires k < |s|
    ensures r.Some? ==> lo + 3 <= r.value <= |s|
    decreases k
  {
    if k < lo then None
    else if s[k] == '.' && SkipLetters(s, k + 1) >= k + 3 then Some(SkipLetters(s, k + 1))
    else if k == 0 then None
    else DotBack(s, lo, k - 1)
  }

  /** Where `(?<![<@])([A-Za-z0-9._%+-]+@[A-Za-z0-9.-]+\.[A-Za-z]{2,})` matches at `p`: the
      end of the address. */
  function BareAt(m: string, p: nat): (r: Option<nat>)
    ensures r.Some? ==> p < r.value <= |m|
  {
    if p >= |m| then None
    else if p > 0 && (m[p - 1] == '<' || m[p - 1] == '@') then None
    else
      var a := SkipLocal(m, p);
      if a == p || a >= |m| || m[a] != '@' then None
      else
        var d := SkipDomain(m, a + 1);
        if d < a + 5 then None
        else DotBack(m, a + 2, d - 1)
  }

  /** `re.finditer` of the bare-address pattern over `m`, from `p`. */
  function BareScan(m: string, p: nat): (r: seq<string>)
    requires p <= |m|
    ensures forall e :: e in r ==> e != [] && LocalChar(e[0])
    decreases |m| - p
  {
    if p >= |m| then []
    else match BareAt(m, p)
      case Some(e) =>
        assert LocalChar(m[p]);
        [m[p..e]] + BareScan(m, e)
      case None => BareScan(m, p + 1)
  }

  // ---------------------------------------------------------------- fallback and cleanup

  /** Non-empty, with no whitespace at either end. */
  predicate Trimmed(x: string) { x != [] && !IsSpace(x[0]) && !IsSpace(x[|x| - 1]) }

  /** Holds no `,` or `;`. */
  predicate SepFree(x: string) { forall c :: c in x ==> !IsSep(c) }

  /** The first separator at or after `i` (or `|s|`). */
  function SepEnd(s: string, i: nat): (r: nat)
    requires i <= |s|
    ensures i <= r <= |s|
    ensures forall k :: i <= k < r ==> !IsSep(s[k])
    ensures r == |s| || IsSep(s[r])
    decreases |s| - i
  {
    if i < |s| && !IsSep(s[i]) then SepEnd(s, i + 1) else i
  }

  /** The fallback `[p.strip() for p in re.split(r"[;,]", s) if p.strip()]`: the pieces
      between separators, stripped, blank ones dropped. */
  function FallbackParts(s: string): (r: seq<string>)
    ensures forall x :: x in r ==> Trimmed(x) && SepFree(x)
    decreases |s|
  {
    var k := SepEnd(s, 0);
    var piece := s[..k];
    assert forall c :: c in piece ==> !IsSep(c);
    var p := Strip(piece);
    assert p != [] ==> Trimmed(p) && SepFree(p);
    var rest := if k == |s| then [] else FallbackParts(s[k + 1..]);
    if p != [] then [p] + rest else rest
  }

  /** `re.sub(r'^[,;]\s*', '', r).strip()`. */
  function CleanEntry(r: string): string
  {
    var t := if r != [] && IsSep(r[0]) then r[SkipSpace(r, 1)..] else r;
    Strip(t)
  }

  function CleanEntries(rs: seq<string>): (r: seq<string>)
    ensures |r| == |rs|
    ensures forall i :: 0 <= i < |rs| ==> r[i] == CleanEntry(rs[i])
  {
    if rs == [] then [] else CleanEntries(rs[..|rs| - 1]) + [CleanEntry(rs[|rs| - 1])]
  }

  // ---------------------------------------------------------------- de-duplication

  predicate NoDuplicates(xs: seq<string>) {
    forall i, j :: 0 <= i < j < |xs| ==> xs[i] != xs[j]
  }

  /** The non-empty entries of `xs`, each at its first occurrence. */
  function Dedup(xs: seq<string>): (r: seq<string>)
    ensures forall x :: x in r <==> x in xs && x != ""
    ensures NoDuplicates(r)
  {
    if xs == [] then []
    else
      var d := Dedup(xs[..|xs| - 1]);
      var x := xs[|xs| - 1];
      assert forall y :: y in xs <==> y in xs[..|xs| - 1] || y == x;
      if x != "" && x !in d then d + [x] else d
  }

  /** The index of the first occurrence of `x`. */
  function FirstIndex(xs: seq<string>, x: string): (k: nat)
    requires x in xs
    ensures k < |xs| && xs[k] == x && x !in xs[..k]
  {
    if xs[0] == x then 0
    else
      var k := FirstIndex(xs[1..], x);
      assert xs[..k + 1] == [xs[0]] + xs[1..][..k];
      k + 1
  }

  lemma {:induction false} FirstIndexSnoc(xs: seq<string>, x: string, y: string)
    requires y in xs
    ensures FirstIndex(xs + [x], y) == FirstIndex(xs, y)
  {
    if xs[0] != y {
      assert (xs + [x])[1..] == xs[1..] + [x];
      assert y in xs[1..];
      FirstIndexSnoc(xs[1..], x, y);
    }
  }

  /** The entries keep the order of their first occurrences. */
  lemma {:induction false} DedupKeepsFirstOccurrenceOrder(xs: seq<string>)
    ensures forall i, j :: 0 <= i < j < |Dedup(xs)| ==> FirstIndex(xs, Dedup(xs)[i]) < FirstIndex(xs, Dedup(xs)[j])
  {
    if xs != [] {
      var init, x := xs[..|xs| - 1], xs[|xs| - 1];
      var d := Dedup(init);
      DedupKeepsFirstOccurrenceOrder(init);
      assert xs == init + [x];
      forall y | y in d ensures FirstIndex(xs, y) == FirstIndex(init, y) && FirstIndex(init, y) < |init| {
        FirstIndexSnoc(init, x, y);
      }
      if x != "" && x !in d {
        assert x !in init;
        assert FirstIndex(xs, x) == |init|;
      }
    }
  }

  /** The de-duplication loop of `_parse_recipients_list`, with its `seen` set. */
  method DedupLoop(recipients: seq<string>) returns (uniq: seq<string>)
    ensures uniq == Dedup(recipients)
  {
    var seen: set<string> := {};
    uniq := [];
    var i := 0;
    while i < |recipients|
      invariant 0 <= i <= |recipients|
      invariant uniq == Dedup(recipients[..i])
      invariant forall x :: x in seen <==> x in uniq
    {
      var r := recipients[i];
      TakeSnoc(recipients, i);
      if r != "" && r !in seen {
        uniq := uniq + [r];
        seen := seen + {r};
      }
      i := i + 1;
    }
    assert recipients[..i] == recipients;
  }

  // ---------------------------------------------------------------- the whole list

  /** The entries before cleaning: the `Name <email>` items and the bare addresses left
      outside their spans, or, when there are none, the pieces between separators. */
  function Candidates(s: string): seq<string>
  {
    var hits := NameEmailScan(s, 0);
    var found := Items(hits) + BareScan(Masked(s, hits), 0);
    if found == [] then FallbackParts(s) else found
  }

  /** `_parse_recipients_list(field)`. */
  function ParseRecipients(field: string): (r: seq<string>)
    ensures field == "" ==> r == []
    ensures NoDuplicates(r)
    ensures forall x :: x in r ==> x != ""
  {
    if field == "" then [] else Dedup(CleanEntries(Candidates(NormalizeGlue(field))))
  }

  /** `_parse_recipients_list`, step by step: the match loop recording items and spans, the
      masking, the bare-address loop, the fallback, the cleanup and the de-duplication. */
  method ParseRecipientsList(field: string) returns (uniq: seq<string>)
    ensures uniq == ParseRecipients(field)
  {
    if field == "" {
      return [];
    }
    var s := NormalizeGlue(field);
    var hits := NameEmailScan(s, 0);
    var recipients := CollectItems(hits);
    var masked := MaskSpans(s, hits);
    recipients := AppendAll(recipients, BareScan(masked, 0));
    if recipients == [] {
      // extending the empty list
      recipients := FallbackParts(s);
    }
    assert recipients == Candidates(s);
    var cleaned := CleanEntries(recipients);
    uniq := DedupLoop(cleaned);
  }

  /** The loop over the `Name <email>` matches: one cleaned item per match. */
  method CollectItems(hits: seq<NameEmailHit>) returns (items: seq<string>)
    ensures items == Items(hits)
  {
    items := [];
    var k := 0;
    while k < |hits|
      invariant 0 <= k <= |hits|
      invariant items == Items(hits[..k])
    {
      ItemsSnoc(hits, k);
      items := items + [CleanWs(hits[k].name) + " <" + CleanWs(hits[k].email) + ">"];
      k := k + 1;
    }
    assert hits[..k] == hits;
  }

  /** The loop over the bare-address matches, appending each one. */
  method AppendAll(recipients: seq<string>, bare: seq<string>) returns (r: seq<string>)
    ensures r == recipients + bare
  {
    r := recipients;
    var j := 0;
    while j < |bare|
      invariant 0 <= j <= |bare|
      invariant r == recipients + bare[..j]
    {
      TakeSnoc(bare, j);
      AppendAssoc(recipients, bare[..j], [bare[j]]);
      r := r + [bare[j]];
      j := j + 1;
    }
    assert bare[..j] == bare;
  }

  // ---------------------------------------------------------------- properties

  /** The first non-blank character is not a separator. */
  predicate LeadOk(c: string) { LStrip(c) == [] || !IsSep(LStrip(c)[0]) }

  /** A cleaned entry: empty, or trimmed and not starting with a separator. */
  predicate EntryOk(x: string) { x == [] || (Trimmed(x) && !IsSep(x[0])) }

  lemma CleanEntryOk(c: string)
    requires LeadOk(c)
    ensures EntryOk(CleanEntry(c))
  {
    var l := LStrip(c);
    var r := RStrip(l);
    if r != [] {
      assert r[0] == l[0];
    }
  }

  lemma CleanEntriesOk(cs: seq<string>)
    requires forall c :: c in cs ==> LeadOk(c)
    ensures forall x :: x in CleanEntries(cs) ==> EntryOk(x)
  {
    forall i | 0 <= i < |cs| ensures EntryOk(CleanEntries(cs)[i]) {
      CleanEntryOk(cs[i]);
    }
  }

  /** A `Name <email>` item starts with the cleaned name, or with `<` when the name is blank. */
  lemma ItemLeadOk(h: NameEmailHit)
    requires NameChars(h.name)
    ensures LeadOk(Item(h))
  {
    CleanWsHead(h.name);
    LeadOfItem(CleanWs(h.name), CleanWs(h.email));
  }

  lemma LeadOfItem(n: string, e: string)
    requires n == [] || (!IsSpace(n[0]) && !IsSep(n[0]))
    ensures LeadOk(n + " <" + e + ">")
  {
    var it := n + " <" + e + ">";
    if n == [] {
      assert it[0] == ' ' && it[1] == '<';
      assert LStrip(it) == LStrip(it[1..]);
      assert it[1..][0] == '<';
    } else {
      assert it[0] == n[0];
    }
  }

  lemma {:induction false} ItemsLeadOk(hits: seq<NameEmailHit>)
    requires forall h :: h in hits ==> NameChars(h.name)
    ensures forall c :: c in Items(hits) ==> LeadOk(c)
  {
    if hits != [] {
      var init := hits[..|hits| - 1];
      assert forall h :: h in init ==> h in hits;
      ItemsLeadOk(init);
      assert hits[|hits| - 1] in hits;
      ItemLeadOk(hits[|hits| - 1]);
    }
  }

  lemma CandidatesLeadOk(s: string)
    ensures forall c :: c in Candidates(s) ==> LeadOk(c)
  {
    var hits := NameEmailScan(s, 0);
    ItemsLeadOk(hits);
    var bare := BareScan(Masked(s, hits), 0);
    forall e | e in bare ensures LeadOk(e) {
      assert LStrip(e) == e;
    }
    forall x | x in FallbackParts(s) ensures LeadOk(x) {
      StripNoop(x);
      assert x[0] in x;
    }
  }

  /** Every entry is non-empty, has no whitespace at either end and does not start with
      `,` or `;`: the cleanup step leaves no separator in front. */
  lemma ParsedEntriesWellFormed(field: string)
    ensures forall x :: x in ParseRecipients(field) ==> Trimmed(x) && !IsSep(x[0])
  {
    if field != "" {
      var s := NormalizeGlue(field);
      CandidatesLeadOk(s);
      CleanEntriesOk(Candidates(s));
    }
  }

  lemma CleanEntriesNoop(xs: seq<string>)
    requires forall x :: x in xs ==> Trimmed(x) && !IsSep(x[0])
    ensures CleanEntries(xs) == xs
  {
    forall i | 0 <= i < |xs| ensures CleanEntries(xs)[i] == xs[i] {
      assert xs[i] in xs;
      CleanEntryNoop(xs[i]);
    }
  }

  lemma CleanEntryNoop(x: string)
    requires Trimmed(x) && !IsSep(x[0])
    ensures CleanEntry(x) == x
  {
    StripNoop(x);
  }

  /** With no spans, masking changes nothing. */
  lemma MaskedNone(s: string)
    ensures Masked(s, []) == s
  {
  }

  /** With neither a `Name <email>` match nor a bare address, the entries are the stripped,
      non-blank pieces between separators, without repeats; none holds a separator. */
  lemma FallbackWhenNoAddress(field: string)
    requires field != ""
    requires NameEmailScan(NormalizeGlue(field), 0) == []
    requires BareScan(NormalizeGlue(field), 0) == []
    ensures ParseRecipients(field) == Dedup(FallbackParts(NormalizeGlue(field)))
    ensures forall x :: x in ParseRecipients(field) ==> SepFree(x)
  {
    var s := NormalizeGlue(field);
    CandidatesFallback(s);
    var parts := FallbackParts(s);
    forall x | x in parts ensures Trimmed(x) && !IsSep(x[0]) {
      assert x[0] in x;
    }
    CleanEntriesNoop(parts);
  }

  lemma CandidatesFallback(s: string)
    requires NameEmailScan(s, 0) == [] && BareScan(s, 0) == []
    ensures Candidates(s) == FallbackParts(s)
  {
    MaskedNone(s);
    var found := Items([]) + BareScan(Masked(s, []), 0);
    assert found == [];
  }

  // ---------------------------------------------------------------- a well-formed entry

  /** A display name the parser reproduces as it is: cleaned, made of name characters and
      ending in a word character. */
  predicate PlainName(n: string) {
    n != [] && Clean(n) && IsWordChar(n[|n| - 1]) && NameChars(n)
  }

  /** An address with no whitespace, no angle brackets, quotes or separators. */
  predicate PlainAddress(e: string) {
    e != [] && NameChars(e) && NoSpace(e)
  }

  /** `Name <email>`. */
  function Entry(n: string, e: string): string { n + " <" + e + ">" }

  lemma {:induction false} CollapseBreaksNoop(s: string)
    requires NoBreaks(s)
    ensures CollapseBreaks(s) == s
    decreases |s|
  {
    if s != [] {
      assert s[0] in s;
      assert forall c :: c in s[1..] ==> c in s;
      CollapseBreaksNoop(s[1..]);
    }
  }

  /** Without a comma in `s[i..j]`, the glue substitution copies that stretch. */
  lemma {:induction false} GlueFromPlain(s: string, i: nat, j: nat)
    requires i <= j <= |s|
    requires forall k :: i <= k < j ==> s[k] != ','
    ensures GlueFrom(s, i) == s[i..j] + GlueFrom(s, j)
    decreases j - i
  {
    if i < j {
      GlueFromPlain(s, i + 1, j);
      GlueFromStep(s, i);
      assert s[i..j] == [s[i]] + s[i + 1..j];
      AppendAssoc([s[i]], s[i + 1..j], GlueFrom(s, j));
    }
  }

  lemma GlueFromStep(s: string, i: nat)
    requires i < |s| && s[i] != ','
    ensures GlueFrom(s, i) == [s[i]] + GlueFrom(s, i + 1)
  {
    assert GlueAt(s, i) == None;
  }

  lemma {:induction false} CollapseLongRunsNoop(s: string)
    requires NoDoubleSpace(s)
    ensures CollapseLongRuns(s) == s
    decreases |s|
  {
    if s != [] {
      NoDoubleSpaceSlice(s, 1, |s|);
      CollapseLongRunsNoop(s[1..]);
      if IsSpace(s[0]) {
        assert SkipSpace(s, 0) == 1;
      }
    }
  }

  /** `g` spells `n`, a space, `<`, `e` and `>`, character by character. */
  predicate Spells(g: string, n: string, e: string) {
    && |g| == |n| + |e| + 3
    && (forall k :: 0 <= k < |n| ==> g[k] == n[k])
    && g[|n|] == ' ' && g[|n| + 1] == '<'
    && (forall k :: 0 <= k < |e| ==> g[|n| + 2 + k] == e[k])
    && g[|g| - 1] == '>'
  }

  /** `f` spells `n`, a comma, a space, `<`, `e` and `>`, character by character. */
  predicate SpellsComma(f: string, n: string, e: string) {
    && |f| == |n| + |e| + 4
    && (forall k :: 0 <= k < |n| ==> f[k] == n[k])
    && f[|n|] == ',' && f[|n| + 1] == ' ' && f[|n| + 2] == '<'
    && (forall k :: 0 <= k < |e| ==> f[|n| + 3 + k] == e[k])
    && f[|f| - 1] == '>'
  }

  lemma EntrySpells(n: string, e: string)
    ensures Spells(Entry(n, e), n, e)
  {
  }

  lemma CommaSpells(n: string, e: string)
    ensures SpellsComma(n + ", <" + e + ">", n, e)
  {
  }

  lemma SpellsUnique(g: string, h: string, n: string, e: string)
    requires Spells(g, n, e) && Spells(h, n, e)
    ensures g == h
  {
    forall k | 0 <= k < |g| ensures g[k] == h[k] {
      if |n| + 2 <= k < |g| - 1 {
        assert g[k] == e[k - |n| - 2] == h[k];
      }
    }
  }

  /** The characters of a plain name: name characters, and the only whitespace is `' '`. */
  lemma PlainNameChar(n: string, k: nat)
    requires PlainName(n) && k < |n|
    ensures NameChar(n[k]) && !IsBreak(n[k])
  {
    assert n[k] in n;
  }

  lemma PlainAddressChar(e: string, k: nat)
    requires PlainAddress(e) && k < |e|
    ensures NameChar(e[k]) && !IsSpace(e[k])
  {
    assert e[k] in e;
  }

  /** What the normalization and the cleanup need to know about a spelled entry. */
  lemma SpelledFacts(g: string, n: string, e: string)
    requires Spells(g, n, e) && PlainName(n) && PlainAddress(e)
    ensures Trimmed(g) && !IsSep(g[0]) && NoDoubleSpace(g) && NoBreaks(g)
    ensures forall k :: 0 <= k < |g| ==> g[k] != ','
  {
    forall k | 0 <= k < |g| ensures !IsBreak(g[k]) && g[k] != ',' {
      if k < |n| {
        PlainNameChar(n, k);
      } else if |n| + 2 <= k < |g| - 1 {
        PlainAddressChar(e, k - |n| - 2);
      }
    }
    PlainNameChar(n, 0);
    forall k | 0 <= k < |g| - 1 ensures !(IsSpace(g[k]) && IsSpace(g[k + 1])) {
      if k < |n| - 1 {
        assert IsSpace(n[k]) ==> !IsSpace(n[k + 1]);
      } else if |n| + 2 <= k {
        PlainAddressChar(e, k - |n| - 2);
      }
    }
  }

  /** A spelled entry is already normalized. */
  lemma NormalizeSpelled(g: string, n: string, e: string)
    requires Spells(g, n, e) && PlainName(n) && PlainAddress(e)
    ensures NormalizeGlue(g) == g
  {
    SpelledFacts(g, n, e);
    NormalizeNoop(g);
  }

  /** Text with no line break, no comma, no double whitespace and nothing to strip is
      already normalized. */
  lemma NormalizeNoop(s: string)
    requires NoBreaks(s) && NoDoubleSpace(s) && (s == [] || (!IsSpace(s[0]) && !IsSpace(s[|s| - 1])))
    requires forall k :: 0 <= k < |s| ==> s[k] != ','
    ensures NormalizeGlue(s) == s
  {
    CollapseBreaksNoop(s);
    GlueFromNoComma(s);
    CollapseLongRunsNoop(s);
    StripNoop(s);
  }

  lemma GlueFromNoComma(s: string)
    requires forall k :: 0 <= k < |s| ==> s[k] != ','
    ensures GlueFrom(s, 0) == s
  {
    GlueFromPlain(s, 0, |s|);
    assert s[0..|s|] == s;
    assert GlueFrom(s, |s|) == [];
  }

  /** The match of the `Name <email>` pattern over a spelled entry covers all of it. */
  lemma ScanSpelled(g: string, n: string, e: string)
    requires Spells(g, n, e) && PlainName(n) && PlainAddress(e)
    ensures NameEmailScan(g, 0) == [NameEmailHit(0, |g|, n, e)]
  {
    SpelledBounds(g, n, e);
    PlainNameChar(n, 0);
    assert SkipSpace(g, 0) == 0;
    SpelledName(g, n, e);
    assert g[|n| + 2..|g| - 1] == e;
    var h := NameEmailHit(0, |g|, n, e);
    TailAtOf(g, |n| + 1, |g| - 1);
    assert TailAt(g, 0, 0) == Some(h);
    assert NameEmailAt(g, 0) == Some(h);
    assert NameEmailScan(g, |g|) == [];
  }

  /** The match at the start of `s` whose name run ends at `l` and whose address ends at `r`. */
  lemma TailAtOf(s: string, l: nat, r: nat)
    requires NameEnd(s, 0) == l && l + 2 <= r < |s| && s[l] == '<'
    requires CloseAfter(s, l + 1) == r && SkipSpace(s, 0) == 0 < l
    ensures TailAt(s, 0, 0) == Some(NameEmailHit(0, r + 1, RStrip(s[0..l]), s[l + 1..r]))
  {
    assert l < |s|;
    assert r >= l + 2;
    var w := SkipSpace(s, 0);
    assert w < l;
  }

  /** Where the name run and the address end in a spelled entry. */
  lemma SpelledBounds(g: string, n: string, e: string)
    requires Spells(g, n, e) && PlainName(n) && PlainAddress(e)
    ensures NameEnd(g, 0) == |n| + 1
    ensures CloseAfter(g, |n| + 2) == |g| - 1
  {
    forall k | 0 <= k < |n| + 1 ensures NameChar(g[k]) {
      if k < |n| {
        PlainNameChar(n, k);
      }
    }
    NameEndAt(g, 0, |n| + 1);
    forall k | |n| + 2 <= k < |g| - 1 ensures g[k] != '>' {
      PlainAddressChar(e, k - |n| - 2);
    }
    CloseAfterAt(g, |n| + 2, |g| - 1);
  }

  /** The name group of a spelled entry: the name with its trailing space dropped. */
  lemma SpelledName(g: string, n: string, e: string)
    requires Spells(g, n, e) && PlainName(n)
    ensures RStrip(g[0..|n| + 1]) == n
  {
    var t := g[0..|n| + 1];
    assert t[..|n|] == n;
    assert RStrip(t) == RStrip(n);
    StripNoop(n);
  }

  /** The candidates of a spelled entry: its one `Name <email>` match, nothing bare. */
  lemma CandidatesSpelled(g: string, n: string, e: string)
    requires Spells(g, n, e) && PlainName(n) && PlainAddress(e)
    ensures Candidates(g) == [g]
  {
    var h := NameEmailHit(0, |g|, n, e);
    ScanSpelled(g, n, e);
    ItemSpelled(g, h);
    BareOfCovered(g, h);
    CandidatesOfOne(g, h);
  }

  /** One `Name <email>` match and no bare address: the match's item is the only candidate. */
  lemma CandidatesOfOne(s: string, h: NameEmailHit)
    requires NameEmailScan(s, 0) == [h] && BareScan(Masked(s, [h]), 0) == []
    ensures Candidates(s) == [Item(h)]
  {
    assert [h][..0] == [];
    assert Items([h]) == [Item(h)];
  }

  /** The item made of a spelled entry's match is the entry itself. */
  lemma ItemSpelled(g: string, h: NameEmailHit)
    requires Spells(g, h.name, h.email) && PlainName(h.name) && PlainAddress(h.email)
    ensures Item(h) == g
  {
    var n, e := h.name, h.email;
    CleanWsNoop(n);
    assert Clean(e) by {
      PlainAddressChar(e, 0);
      PlainAddressChar(e, |e| - 1);
    }
    CleanWsNoop(e);
    EntrySpells(n, e);
    SpellsUnique(Entry(n, e), g, n, e);
  }

  /** Once a match covers all of `s`, no bare address is left. */
  lemma BareOfCovered(s: string, h: NameEmailHit)
    requires h.start == 0 && h.end == |s|
    ensures BareScan(Masked(s, [h]), 0) == []
  {
    var m := Masked(s, [h]);
    forall k | 0 <= k < |m| ensures m[k] == '\0' {
      assert [h][..0] == [];
      assert Covered([h], k);
    }
    BareScanNone(m, 0);
  }

  /** The first index at or after `i` that is not a name character, pinned down. */
  lemma NameEndAt(s: string, i: nat, l: nat)
    requires i <= l < |s| && !NameChar(s[l])
    requires forall k :: i <= k < l ==> NameChar(s[k])
    ensures NameEnd(s, i) == l
  {
  }

  /** A bare-address scan over text with no address characters finds nothing. */
  lemma {:induction false} BareScanNone(m: string, p: nat)
    requires p <= |m|
    requires forall k :: p <= k < |m| ==> !LocalChar(m[k])
    ensures BareScan(m, p) == []
    decreases |m| - p
  {
    if p < |m| {
      BareScanNone(m, p + 1);
    }
  }

  lemma DedupOne(x: string)
    requires x != ""
    ensures Dedup([x]) == [x]
  {
    assert [x][..0] == [];
  }

  /** A spelled entry parses to itself. */
  lemma ParseSpelled(g: string, n: string, e: string)
    requires Spells(g, n, e) && PlainName(n) && PlainAddress(e)
    ensures ParseRecipients(g) == [g]
  {
    SpelledFacts(g, n, e);
    NormalizeSpelled(g, n, e);
    CandidatesSpelled(g, n, e);
    ParseOfSingle(g, g, g);
  }

  /** A field whose normalization has one candidate, already clean, parses to it. */
  lemma ParseOfSingle(field: string, s: string, x: string)
    requires field != "" && NormalizeGlue(field) == s && Candidates(s) == [x]
    requires Trimmed(x) && !IsSep(x[0])
    ensures ParseRecipients(field) == [x]
  {
    CleanEntriesNoop([x]);
    DedupOne(x);
  }

  /** A well-formed `Name <email>` entry parses to itself. */
  lemma ParseEntry(n: string, e: string)
    requires PlainName(n) && PlainAddress(e)
    ensures ParseRecipients(Entry(n, e)) == [Entry(n, e)]
  {
    EntrySpells(n, e);
    ParseSpelled(Entry(n, e), n, e);
  }

  /** The glue substitution over `Name, <email>` spells `Name <email>`. */
  lemma GlueComma(f: string, n: string, e: string)
    requires SpellsComma(f, n, e) && PlainName(n) && PlainAddress(e)
    ensures Spells(GlueFrom(f, 0), n, e)
  {
    forall k | 0 <= k < |n| ensures f[k] != ',' {
      PlainNameChar(n, k);
    }
    GlueFromPlain(f, 0, |n|);
    GlueAtComma(f, n, e);
    var tail := f[|n| + 2..|f|];
    assert GlueFrom(f, |f|) == [];
    assert GlueFrom(f, |n|) == " " + tail;
    SpellsOfGlued(f[0..|n|] + (" " + tail), f, n, e);
  }

  lemma GlueAtComma(f: string, n: string, e: string)
    requires SpellsComma(f, n, e) && PlainName(n) && PlainAddress(e)
    ensures GlueAt(f, |n|) == Some(|f| - 1)
  {
    assert SkipSpace(f, |n| + 1) == |n| + 2;
    forall k | |n| + 3 <= k < |f| - 1 ensures f[k] != '>' {
      PlainAddressChar(e, k - |n| - 3);
    }
    CloseAfterAt(f, |n| + 3, |f| - 1);
  }

  lemma SpellsOfGlued(r: string, f: string, n: string, e: string)
    requires SpellsComma(f, n, e)
    requires r == f[0..|n|] + (" " + f[|n| + 2..|f|])
    ensures Spells(r, n, e)
  {
    var tail := f[|n| + 2..|f|];
    assert |r| == |n| + |e| + 3;
    forall k | 0 <= k < |e| ensures r[|n| + 2 + k] == e[k] {
      assert r[|n| + 2 + k] == tail[k + 1] == f[|n| + 3 + k];
    }
  }

  /** The normalization of `Name, <email>` spells `Name <email>`. */
  lemma NormalizeComma(f: string, n: string, e: string)
    requires SpellsComma(f, n, e) && PlainName(n) && PlainAddress(e)
    ensures Spells(NormalizeGlue(f), n, e)
  {
    forall k | 0 <= k < |f| ensures !IsBreak(f[k]) {
      if k < |n| {
        PlainNameChar(n, k);
      } else if |n| + 3 <= k < |f| - 1 {
        PlainAddressChar(e, k - |n| - 3);
      }
    }
    CollapseBreaksNoop(f);
    GlueComma(f, n, e);
    var r := GlueFrom(f, 0);
    SpelledFacts(r, n, e);
    CollapseLongRunsNoop(r);
    StripNoop(r);
  }

  /** `Name, <email>`, where a comma splits the name from its address, parses to the single
      entry `Name <email>` rather than to a bare name and an address. */
  lemma ParseNameComma(n: string, e: string)
    requires PlainName(n) && PlainAddress(e)
    ensures ParseRecipients(n + ", <" + e + ">") == [Entry(n, e)]
  {
    var f := n + ", <" + e + ">";
    CommaSpells(n, e);
    NormalizeComma(f, n, e);
    var g := NormalizeGlue(f);
    SpelledFacts(g, n, e);
    CandidatesSpelled(g, n, e);
    ParseOfSingle(f, g, g);
    EntrySpells(n, e);
    SpellsUnique(g, Entry(n, e), n, e);
  }

  // ---------------------------------------------------------------- what the normalization keeps

  lemma BreakIsSpace(c: char)
    requires IsBreak(c)
    ensures IsSpace(c)
  {
  }

  /** The run that `SkipBreaks` passes over is whitespace. */
  lemma {:induction false} SkipBreaksSpaces(s: string, i: nat)
    requires i <= |s|
    ensures forall k :: i <= k < SkipBreaks(s, i) ==> IsSpace(s[k])
    decreases |s| - i
  {
    if i < |s| && IsBreak(s[i]) {
      SkipBreaksSpaces(s, i + 1);
      BreakIsSpace(s[i]);
    }
  }

  /** The leading run of breaks changes no word. */
  lemma WordsSkipBreaks(s: string)
    ensures Words(s[SkipBreaks(s, 0)..]) == Words(s)
  {
    SkipBreaksSpaces(s, 0);
    WordsSkipLead(s, SkipBreaks(s, 0));
  }

  lemma CollapseBreaksBreak(s: string)
    requires s != [] && IsBreak(s[0])
    ensures CollapseBreaks(s) == " " + CollapseBreaks(s[SkipBreaks(s, 0)..])
  {
  }

  lemma CollapseBreaksChar(s: string)
    requires s != [] && !IsBreak(s[0])
    ensures CollapseBreaks(s) == [s[0]] + CollapseBreaks(s[1..])
  {
  }

  /** Collapsing the breaks starts with a word exactly when the text does. */
  lemma CollapseBreaksStarts(y: string)
    ensures StartsWord(CollapseBreaks(y)) <==> StartsWord(y)
  {
    if y != [] && IsBreak(y[0]) {
      BreakIsSpace(y[0]);
    }
  }

  /** Turning the line breaks and tabs into spaces keeps every word, in order. */
  lemma {:induction false} CollapseBreaksWords(s: string)
    ensures Words(CollapseBreaks(s)) == Words(s)
    decreases |s|
  {
    if s != [] {
      if IsBreak(s[0]) {
        var k := SkipBreaks(s, 0);
        CollapseBreaksWords(s[k..]);
        CollapseBreaksBreak(s);
        WordsSpaceHead(' ', CollapseBreaks(s[k..]));
        WordsSkipBreaks(s);
      } else {
        CollapseBreaksWords(s[1..]);
        CollapseBreaksCharWords(s);
      }
    }
  }

  lemma CollapseBreaksCharWords(s: string)
    requires s != [] && !IsBreak(s[0])
    requires Words(CollapseBreaks(s[1..])) == Words(s[1..])
    ensures Words(CollapseBreaks(s)) == Words(s)
  {
    var y := s[1..];
    var x := CollapseBreaks(y);
    CollapseBreaksChar(s);
    ConsTail(s);
    if IsSpace(s[0]) {
      WordsSpaceHead(s[0], x);
      WordsSpaceHead(s[0], y);
    } else {
      CollapseBreaksStarts(y);
      WordsCons(s[0], x, y);
    }
  }

  lemma CollapseLongRunsLong(s: string)
    requires s != [] && IsSpace(s[0]) && SkipSpace(s, 0) >= 2
    ensures CollapseLongRuns(s) == " " + CollapseLongRuns(s[SkipSpace(s, 0)..])
  {
  }

  lemma CollapseLongRunsKeep(s: string)
    requires s != [] && (!IsSpace(s[0]) || SkipSpace(s, 0) < 2)
    ensures CollapseLongRuns(s) == [s[0]] + CollapseLongRuns(s[1..])
  {
  }

  /** Shrinking the whitespace runs starts with a word exactly when the text does. */
  lemma CollapseLongRunsStarts(y: string)
    ensures StartsWord(CollapseLongRuns(y)) <==> StartsWord(y)
  {
  }

  /** Shrinking the long whitespace runs keeps every word, in order. */
  lemma {:induction false} CollapseLongRunsWords(s: string)
    ensures Words(CollapseLongRuns(s)) == Words(s)
    decreases |s|
  {
    if s != [] {
      if IsSpace(s[0]) && SkipSpace(s, 0) >= 2 {
        var k := SkipSpace(s, 0);
        CollapseLongRunsWords(s[k..]);
        CollapseLongRunsLong(s);
        WordsSpaceHead(' ', CollapseLongRuns(s[k..]));
        WordsSkipSpace(s);
      } else {
        CollapseLongRunsWords(s[1..]);
        CollapseLongRunsKeepWords(s);
      }
    }
  }

  lemma CollapseLongRunsKeepWords(s: string)
    requires s != [] && (!IsSpace(s[0]) || SkipSpace(s, 0) < 2)
    requires Words(CollapseLongRuns(s[1..])) == Words(s[1..])
    ensures Words(CollapseLongRuns(s)) == Words(s)
  {
    var y := s[1..];
    var x := CollapseLongRuns(y);
    CollapseLongRunsKeep(s);
    ConsTail(s);
    if IsSpace(s[0]) {
      WordsSpaceHead(s[0], x);
      WordsSpaceHead(s[0], y);
    } else {
      CollapseLongRunsStarts(y);
      WordsCons(s[0], x, y);
    }
  }

  /** Collapsing the breaks brings in no comma. */
  lemma {:induction false} CollapseBreaksNoComma(s: string)
    requires forall k :: 0 <= k < |s| ==> s[k] != ','
    ensures forall k :: 0 <= k < |CollapseBreaks(s)| ==> CollapseBreaks(s)[k] != ','
    decreases |s|
  {
    if s != [] {
      var t := if IsBreak(s[0]) then s[SkipBreaks(s, 0)..] else s[1..];
      forall k | 0 <= k < |t| ensures t[k] != ',' {
        assert t[k] == s[|s| - |t| + k];
      }
      CollapseBreaksNoComma(t);
    }
  }

  /** Without a comma the normalization changes only whitespace: the words stay, in order. */
  lemma NormalizeGlueWords(s: string)
    requires forall k :: 0 <= k < |s| ==> s[k] != ','
    ensures Words(NormalizeGlue(s)) == Words(s)
  {
    var b := CollapseBreaks(s);
    CollapseBreaksWords(s);
    CollapseBreaksNoComma(s);
    GlueFromNoComma(b);
    CollapseLongRunsWords(b);
    WordsOfStrip(CollapseLongRuns(b));
  }

  /** Where the glue pattern matches, at a comma right after a word character followed by
      optional whitespace and `<...>`, the comma and the whitespace become one space and
      the bracketed address is kept; scanning resumes after the `>`. */
  lemma GlueAtStep(s: string, i: nat, j: nat, g: nat)
    requires 0 < i < j && j + 2 <= g < |s|
    requires s[i] == ',' && IsWordChar(s[i - 1])
    requires forall k :: i < k < j ==> IsSpace(s[k])
    requires s[j] == '<' && s[g] == '>'
    requires forall k :: j < k < g ==> s[k] != '>'
    ensures GlueFrom(s, i) == " " + s[j..g + 1] + GlueFrom(s, g + 1)
  {
    GlueAtMatch(s, i, j, g);
    GlueFromMatch(s, i);
  }

  lemma GlueAtMatch(s: string, i: nat, j: nat, g: nat)
    requires 0 < i < j && j + 2 <= g < |s|
    requires s[i] == ',' && IsWordChar(s[i - 1])
    requires forall k :: i < k < j ==> IsSpace(s[k])
    requires s[j] == '<' && s[g] == '>'
    requires forall k :: j < k < g ==> s[k] != '>'
    ensures GlueAt(s, i) == Some(g) && SkipSpace(s, i + 1) == j
  {
    assert !IsSpace(s[j]);
    SkipSpaceAt(s, i + 1, j);
    CloseAfterAt(s, j + 1, g);
  }

  lemma GlueFromMatch(s: string, i: nat)
    requires i < |s| && GlueAt(s, i).Some?
    ensures GlueFrom(s, i)
      == " " + s[SkipSpace(s, i + 1)..GlueAt(s, i).value + 1] + GlueFrom(s, GlueAt(s, i).value + 1)
  {
  }

  lemma {:induction false} SkipSpaceAt(s: string, i: nat, j: nat)
    requires i <= j < |s| && !IsSpace(s[j])
    requires forall k :: i <= k < j ==> IsSpace(s[k])
    ensures SkipSpace(s, i) == j
    decreases j - i
  {
    if i < j {
      SkipSpaceAt(s, i + 1, j);
    }
  }

  /** A comma not followed, after optional whitespace, by `<` stays where it is. */
  lemma GlueKeepsComma(s: string, i: nat)
    requires i < |s| && s[i] == ','
    requires SkipSpace(s, i + 1) == |s| || s[SkipSpace(s, i + 1)] != '<'
    ensures GlueFrom(s, i) == [','] + GlueFrom(s, i + 1)
  {
    assert GlueAt(s, i) == None;
  }

  /** The first separator of `s` is at `j`. */
  lemma SepEndAt(s: string, j: nat)
    requires j <= |s| && (j == |s| || IsSep(s[j]))
    requires forall k :: 0 <= k < j ==> !IsSep(s[k])
    ensures SepEnd(s, 0) == j
  {
  }

  /** Text without a separator is one piece: its stripped self, or nothing when blank. */
  lemma FallbackPiece(a: string)
    requires SepFree(a)
    ensures FallbackParts(a) == (if Strip(a) != [] then [Strip(a)] else [])
  {
    forall k | 0 <= k < |a| ensures !IsSep(a[k]) {
      assert a[k] in a;
    }
    SepEndAt(a, |a|);
    assert a[..|a|] == a;
  }

  /** A separator splits the pieces: those of the text before it, then those after it. */
  lemma FallbackSplit(a: string, c: char, b: string)
    requires SepFree(a) && IsSep(c)
    ensures FallbackParts(a + [c] + b) == FallbackParts(a) + FallbackParts(b)
  {
    var s := a + [c] + b;
    forall k | 0 <= k < |a| ensures !IsSep(s[k]) {
      assert s[k] == a[k] && a[k] in a;
    }
    assert s[|a|] == c;
    SepEndAt(s, |a|);
    assert s[..|a|] == a;
    assert s[|a| + 1..] == b;
    FallbackPiece(a);
  }
}
