/** One message record from one parsed message, and the choice between a single message and
    a container with embedded `message/rfc822` parts (eml2md.py). */
module EmlExtract {
  import opened Results
  import opened Text
  import opened Mime
  import opened DateTimes
  import opened EmlDecode

  datatype Attachment = Attachment(filename: string, content: Bytes, contentType: string)

  /** The dictionary `extract_email_parts` returns. */
  datatype EmailRecord = EmailRecord(
    date: Option<DateTime>,
    from: string,
    to: string,
    cc: string,
    subject: string,
    body: string,
    attachments: seq<Attachment>)

  // ---------------------------------------------------------------- tag stripping

  /** Where the first `>` after a `<` at `i` is (-1 when there is none). */
  function TagEnd(s: string, i: nat): int
    requires i < |s|
  {
    var g := CloseAfter(s, i + 1);
    if g < |s| then g else -1
  }

  /** `<[^>]+>` matches at `i`: a `<`, at least one character other than `>`, then `>`. */
  predicate TagAt(s: string, i: nat) {
    i < |s| && s[i] == '<' && TagEnd(s, i) >= i + 2
  }

  /** No `<` is followed by one or more characters other than `>` and then a `>`. */
  predicate TagFree(r: string) {
    forall i :: 0 <= i < |r| && r[i] == '<' ==> (i + 1 < |r| && r[i + 1] == '>') || NoCloseAfter(r, i)
  }

  /** No `>` after position `i`. */
  predicate NoCloseAfter(r: string, i: nat) {
    forall j :: i < j < |r| ==> r[j] != '>'
  }

  /** Every character of `r` occurs in `t`. */
  predicate CharsWithin(r: string, t: string) { forall c :: c in r ==> c in t }

  /** `re.sub(r'<[^>]+>', '', s[i..])`, scanning left to right as `re.sub` does. */
  function StripTagsFrom(s: string, i: nat): (r: string)
    requires i <= |s|
    ensures |r| <= |s| - i
    decreases |s| - i
  {
    if i == |s| then ""
    else if TagAt(s, i) then StripTagsFrom(s, TagEnd(s, i) + 1)
    else [s[i]] + StripTagsFrom(s, i + 1)
  }

  /** The scan only keeps characters of the text it scans. */
  lemma {:induction false} StripTagsFromChars(s: string, i: nat)
    requires i <= |s|
    ensures CharsWithin(StripTagsFrom(s, i), s[i..])
    decreases |s| - i
  {
    if i < |s| {
      if TagAt(s, i) {
        StripTagsFromChars(s, TagEnd(s, i) + 1);
        assert forall c :: c in s[TagEnd(s, i) + 1..] ==> c in s[i..];
      } else {
        StripTagsFromChars(s, i + 1);
        assert forall c :: c in s[i + 1..] ==> c in s[i..];
      }
    }
  }

  /** The HTML fallback's tag removal: what is left contains no tag. */
  function StripTags(s: string): (r: string)
    ensures |r| <= |s|
    ensures TagFree(r)
  {
    StripTagsFromTagFree(s, 0);
    StripTagsFrom(s, 0)
  }

  /** A `<` kept by the scan is followed at once by `>` in the output, or by no `>` at all. */
  lemma KeptOpen(s: string, i: nat)
    requires i < |s| && s[i] == '<' && !TagAt(s, i)
    ensures var t := StripTagsFrom(s, i + 1);
            (t != [] && t[0] == '>') || NoCloseAfter([s[i]] + t, 0)
  {
    var t := StripTagsFrom(s, i + 1);
    if TagEnd(s, i) == -1 {
      StripTagsFromChars(s, i + 1);
      assert '>' !in s[i + 1..];
      forall j | 0 < j < |[s[i]] + t| ensures ([s[i]] + t)[j] != '>' {
        assert ([s[i]] + t)[j] in t;
      }
    } else {
      assert s[i + 1] == '>';
      assert !TagAt(s, i + 1);
      StripTagsFromKeep(s, i + 1);
    }
  }

  lemma {:induction false} StripTagsFromTagFree(s: string, i: nat)
    requires i <= |s|
    ensures TagFree(StripTagsFrom(s, i))
    decreases |s| - i
  {
    if i < |s| {
      if TagAt(s, i) {
        StripTagsFromTagFree(s, TagEnd(s, i) + 1);
      } else {
        var t := StripTagsFrom(s, i + 1);
        StripTagsFromTagFree(s, i + 1);
        assert StripTagsFrom(s, i) == [s[i]] + t;
        if s[i] == '<' {
          KeptOpen(s, i);
        }
        ConsTagFree(s[i], t);
      }
    }
  }

  /** A character put before tag-free text keeps it tag-free, unless it is a `<` that a
      later `>` would close. */
  lemma ConsTagFree(c: char, t: string)
    requires TagFree(t)
    requires c == '<' ==> (t != [] && t[0] == '>') || NoCloseAfter([c] + t, 0)
    ensures TagFree([c] + t)
  {
    var r := [c] + t;
    forall k | 0 <= k < |r| && r[k] == '<'
      ensures (k + 1 < |r| && r[k + 1] == '>') || NoCloseAfter(r, k)
    {
      if k > 0 {
        assert t[k - 1] == '<';
        assert (k < |t| && t[k] == '>') || NoCloseAfter(t, k - 1);
      }
    }
  }

  /** Text without tags passes through unchanged, so stripping twice is stripping once. */
  lemma {:induction false} StripTagsKeepsTagFree(s: string)
    requires TagFree(s)
    ensures StripTags(s) == s
  {
    StripTagFreeFrom(s, 0);
  }

  lemma {:induction false} StripTagFreeFrom(s: string, i: nat)
    requires TagFree(s) && i <= |s|
    ensures StripTagsFrom(s, i) == s[i..]
    decreases |s| - i
  {
    if i < |s| {
      assert !TagAt(s, i);
      StripTagFreeFrom(s, i + 1);
    }
  }

  lemma StripTagsIdempotent(s: string)
    ensures StripTags(StripTags(s)) == StripTags(s)
  {
    StripTagsKeepsTagFree(StripTags(s));
  }

  lemma {:induction false} StripTagsFromSkip(s: string, i: nat)
    requires TagAt(s, i)
    ensures StripTagsFrom(s, i) == StripTagsFrom(s, TagEnd(s, i) + 1)
  {
  }

  lemma {:induction false} StripTagsFromKeep(s: string, i: nat)
    requires i < |s| && !TagAt(s, i)
    ensures StripTagsFrom(s, i) == [s[i]] + StripTagsFrom(s, i + 1)
  {
  }

  /** Text with no `<` in `s[i..j]` is copied as it is. */
  lemma {:induction false} StripTagsFromPlain(s: string, i: nat, j: nat)
    requires i <= j <= |s|
    requires forall k :: i <= k < j ==> s[k] != '<'
    ensures StripTagsFrom(s, i) == s[i..j] + StripTagsFrom(s, j)
    decreases j - i
  {
    if i < j {
      StripTagsFromPlain(s, i + 1, j);
      StripTagsFromKeep(s, i);
      SliceCons(s, i, j);
      AppendAssoc([s[i]], s[i + 1..j], StripTagsFrom(s, j));
    }
  }

  /** A tag `<...>` at `i`, closed by the first `>` at `e`, is dropped whole. */
  lemma {:induction false} StripTagsFromTag(s: string, i: nat, e: nat)
    requires i + 2 <= e < |s| && s[i] == '<' && s[e] == '>'
    requires forall k :: i < k < e ==> s[k] != '>'
    ensures StripTagsFrom(s, i) == StripTagsFrom(s, e + 1)
  {
    assert TagEnd(s, i) == e;
    StripTagsFromSkip(s, i);
  }

  /** `b` sits in `s` from `off` to the end. */
  predicate SuffixAt(s: string, off: nat, b: string) {
    off + |b| == |s| && forall k :: 0 <= k < |b| ==> s[off + k] == b[k]
  }

  /** Where the first `>` after `j` lies, the same in `b` and in a text that ends with `b`. */
  lemma {:induction false} TagEndShift(s: string, off: nat, b: string, j: nat)
    requires SuffixAt(s, off, b) && j < |b|
    ensures TagEnd(s, off + j) == (if TagEnd(b, j) == -1 then -1 else off + TagEnd(b, j))
  {
    var t := TagEnd(b, j);
    if t == -1 {
      forall k | off + j + 1 <= k < |s| ensures s[k] != '>' {
        assert s[k] == b[k - off];
      }
    } else {
      assert s[off + t] == b[t];
      forall k | off + j + 1 <= k < off + t ensures s[k] != '>' {
        assert s[k] == b[k - off];
      }
    }
  }

  /** The scan depends only on what lies at and after its position. */
  lemma {:induction false} StripTagsShift(s: string, off: nat, b: string, j: nat)
    requires SuffixAt(s, off, b) && j <= |b|
    ensures StripTagsFrom(s, off + j) == StripTagsFrom(b, j)
    decreases |b| - j
  {
    if j < |b| {
      assert s[off + j] == b[j];
      TagEndShift(s, off, b, j);
      if TagAt(b, j) {
        StripTagsShift(s, off, b, TagEnd(b, j) + 1);
        ShiftSkip(s, off, b, j);
      } else {
        StripTagsShift(s, off, b, j + 1);
        ShiftKeep(s, off, b, j);
      }
    }
  }

  lemma {:induction false} ShiftSkip(s: string, off: nat, b: string, j: nat)
    requires SuffixAt(s, off, b) && j < |b| && TagAt(b, j)
    requires TagEnd(s, off + j) == off + TagEnd(b, j)
    requires StripTagsFrom(s, off + TagEnd(b, j) + 1) == StripTagsFrom(b, TagEnd(b, j) + 1)
    ensures StripTagsFrom(s, off + j) == StripTagsFrom(b, j)
  {
    assert s[off + j] == b[j];
    StripTagsFromSkip(s, off + j);
    StripTagsFromSkip(b, j);
  }

  lemma {:induction false} ShiftKeep(s: string, off: nat, b: string, j: nat)
    requires SuffixAt(s, off, b) && j < |b| && !TagAt(b, j)
    requires TagEnd(s, off + j) == (if TagEnd(b, j) == -1 then -1 else off + TagEnd(b, j))
    requires StripTagsFrom(s, off + j + 1) == StripTagsFrom(b, j + 1)
    ensures StripTagsFrom(s, off + j) == StripTagsFrom(b, j)
  {
    assert s[off + j] == b[j];
    StripTagsFromKeep(s, off + j);
    StripTagsFromKeep(b, j);
  }

  /** Stripping `a + "<" + x + ">" + b`, where `a` has no `<` and `x` is a non-empty run
      without `>`, keeps `a`, drops the tag and strips `b` on its own. */
  lemma {:induction false} StripTagsRemovesTag(a: string, x: string, b: string)
    requires forall k :: 0 <= k < |a| ==> a[k] != '<'
    requires x != [] && forall k :: 0 <= k < |x| ==> x[k] != '>'
    ensures StripTags(a + "<" + x + ">" + b) == a + StripTags(b)
  {
    StripTagsFromRemovesTag(a, x, b);
  }

  /** Text without a `<` passes through unchanged. */
  lemma StripTagsPlain(s: string)
    requires forall k :: 0 <= k < |s| ==> s[k] != '<'
    ensures StripTags(s) == s
  {
    StripTagsFromPlain(s, 0, |s|);
    assert s[0..|s|] == s;
  }

  lemma {:induction false} StripTagsFromRemovesTag(a: string, x: string, b: string)
    requires forall k :: 0 <= k < |a| ==> a[k] != '<'
    requires x != [] && forall k :: 0 <= k < |x| ==> x[k] != '>'
    ensures StripTagsFrom(a + "<" + x + ">" + b, 0) == a + StripTagsFrom(b, 0)
  {
    TaggedBefore(a, x, b);
    TaggedTag(a, x, b);
    TaggedAfter(a, x, b);
  }

  lemma {:induction false} TaggedBefore(a: string, x: string, b: string)
    requires forall k :: 0 <= k < |a| ==> a[k] != '<'
    ensures StripTagsFrom(a + "<" + x + ">" + b, 0) == a + StripTagsFrom(a + "<" + x + ">" + b, |a|)
  {
    TaggedPrefix(a, x, b);
    StripTagsFromPlain(a + "<" + x + ">" + b, 0, |a|);
  }

  lemma {:induction false} TaggedTag(a: string, x: string, b: string)
    requires x != [] && forall k :: 0 <= k < |x| ==> x[k] != '>'
    ensures StripTagsFrom(a + "<" + x + ">" + b, |a|)
      == StripTagsFrom(a + "<" + x + ">" + b, |a| + |x| + 2)
  {
    TaggedMarks(a, x, b);
    StripTagsFromTag(a + "<" + x + ">" + b, |a|, |a| + 1 + |x|);
  }

  lemma {:induction false} TaggedAfter(a: string, x: string, b: string)
    ensures StripTagsFrom(a + "<" + x + ">" + b, |a| + |x| + 2) == StripTagsFrom(b, 0)
  {
    TaggedSuffix(a, x, b);
    StripTagsSuffix(a + "<" + x + ">" + b, |a| + |x| + 2, b);
  }

  lemma StripTagsSuffix(s: string, off: nat, b: string)
    requires SuffixAt(s, off, b)
    ensures StripTagsFrom(s, off) == StripTagsFrom(b, 0)
  {
    StripTagsShift(s, off, b, 0);
  }

  // Where the pieces of `a + "<" + x + ">" + b` lie.

  lemma TaggedPrefix(a: string, x: string, b: string)
    requires forall k :: 0 <= k < |a| ==> a[k] != '<'
    ensures var s := a + "<" + x + ">" + b;
      |a| <= |s| && s[0..|a|] == a && forall k :: 0 <= k < |a| ==> s[k] != '<'
  {
    var s := a + "<" + x + ">" + b;
    forall k | 0 <= k < |a| ensures s[k] != '<' {
      assert s[k] == a[k];
    }
  }

  lemma TaggedMarks(a: string, x: string, b: string)
    requires x != [] && forall k :: 0 <= k < |x| ==> x[k] != '>'
    ensures var s := a + "<" + x + ">" + b;
      && |a| + 2 + |x| <= |s| && s[|a|] == '<' && s[|a| + 1 + |x|] == '>'
      && forall k :: |a| < k < |a| + 1 + |x| ==> s[k] != '>'
  {
    var s := a + "<" + x + ">" + b;
    forall k | |a| < k < |a| + 1 + |x| ensures s[k] != '>' {
      assert s[k] == x[k - |a| - 1];
    }
  }

  lemma TaggedSuffix(a: string, x: string, b: string)
    ensures SuffixAt(a + "<" + x + ">" + b, |a| + |x| + 2, b)
  {
  }

  // ---------------------------------------------------------------- one part at a time

  /** `content_type == 'text/plain' and 'attachment' not in content_disposition`, for a part
      that carries bytes (a text part always does: see `InlineTextAsWritten`). */
  predicate PlainInline(p: Part) {
    p.contentType == "text/plain" && !Contains(p.disposition, "attachment") && p.body.Leaf?
  }

  /** The same for `text/html`. */
  predicate HtmlInline(p: Part) {
    p.contentType == "text/html" && !Contains(p.disposition, "attachment") && p.body.Leaf?
  }

  /** `part.get_filename()` is truthy. */
  predicate HasFilename(p: Part) {
    p.filename.Some? && p.filename.value != ""
  }

  /** In a part as the parser builds it, the two tests are exactly the source's: the
      `Leaf?` conjunct adds nothing, since a text part always carries bytes. */
  lemma InlineTextAsWritten(p: Part)
    requires NodeOk(p)
    ensures PlainInline(p) <==> p.contentType == "text/plain" && !Contains(p.disposition, "attachment")
    ensures HtmlInline(p) <==> p.contentType == "text/html" && !Contains(p.disposition, "attachment")
  {
    if p.contentType == "text/plain" {
      TextIsLeaf(p);
    } else if p.contentType == "text/html" {
      TextIsLeaf(p);
    }
  }

  lemma TextIsLeaf(p: Part)
    requires NodeOk(p) && |p.contentType| > 0 && p.contentType[0] == 't'
    ensures p.body.Leaf?
  {
    NotPrefix("multipart/", p.contentType);
    NotPrefix("message/", p.contentType);
  }

  lemma NotPrefix(pre: string, s: string)
    requires |pre| > 0 && |s| > 0 && pre[0] != s[0]
    ensures !IsPrefix(pre, s)
  {
  }

  /** `decode_content(part)`. */
  function PartText(lib: Library, p: Part): string
    requires p.body.Leaf?
  {
    DecodeContent(lib, p.body.payload, p.charset)
  }

  /** The attachment a part yields once it reaches the attachment branch: it needs a
      filename and a non-empty decoded payload (`get_payload(decode=True)` is None for a
      multipart part). */
  function AttachmentOf(lib: Library, p: Part): (r: Option<Attachment>)
    ensures r.Some? <==> HasFilename(p) && p.body.Leaf? && |p.body.payload| > 0
    ensures r.Some? ==> r.value.content == p.body.payload && r.value.contentType == p.contentType
  {
    if HasFilename(p) && p.body.Leaf? && |p.body.payload| > 0 then
      Some(Attachment(HeaderText(lib, p.filename), p.body.payload, p.contentType))
    else None
  }

  /** Body text and attachments accumulated so far. */
  datatype Acc = Acc(body: string, attachments: seq<Attachment>)

  /** One pass of the loop over `msg.walk()`. */
  function Step(lib: Library, acc: Acc, p: Part): Acc
  {
    if PlainInline(p) then
      Acc(acc.body + PartText(lib, p), acc.attachments)
    else if HtmlInline(p) && acc.body == "" then
      Acc(acc.body + StripTags(PartText(lib, p)), acc.attachments)
    else if Contains(p.disposition, "attachment") || HasFilename(p) then
      match AttachmentOf(lib, p)
      case Some(a) => Acc(acc.body, acc.attachments + [a])
      case None => acc
    else acc
  }

  /** `Step` by cases, in the order of the `if`/`elif` chain. */
  lemma StepCases(lib: Library, acc: Acc, p: Part)
    ensures PlainInline(p)
            ==> Step(lib, acc, p) == Acc(acc.body + DecodeContent(lib, p.body.payload, p.charset), acc.attachments)
    ensures !PlainInline(p) && HtmlInline(p) && acc.body == ""
            ==> Step(lib, acc, p) == Acc(acc.body + StripTags(DecodeContent(lib, p.body.payload, p.charset)), acc.attachments)
    ensures !PlainInline(p) && !(HtmlInline(p) && acc.body == "") && HasFilename(p)
            && p.body.Leaf? && |p.body.payload| > 0
            ==> Step(lib, acc, p) == Acc(acc.body, acc.attachments + [Attachment(HeaderText(lib, p.filename), p.body.payload, p.contentType)])
    ensures !PlainInline(p) && !(HtmlInline(p) && acc.body == "")
            && !(HasFilename(p) && p.body.Leaf? && |p.body.payload| > 0)
            ==> Step(lib, acc, p) == acc
  {
  }

  lemma FoldSnoc(lib: Library, ps: seq<Part>, p: Part)
    ensures Fold(lib, ps + [p]) == Step(lib, Fold(lib, ps), p)
  {
    assert (ps + [p])[..|ps|] == ps;
  }

  /** The loop over a walk, as a value. */
  function Fold(lib: Library, ps: seq<Part>): Acc
  {
    if ps == [] then Acc("", []) else Step(lib, Fold(lib, ps[..|ps| - 1]), ps[|ps| - 1])
  }

  // ---------------------------------------------------------------- body selection

  /** What a part adds to a body that is still empty. */
  function Contribution(lib: Library, p: Part): string
  {
    if PlainInline(p) then PartText(lib, p)
    else if HtmlInline(p) then StripTags(PartText(lib, p))
    else ""
  }

  /** The first part whose contribution is not empty, if any. */
  function FirstContributor(lib: Library, ps: seq<Part>): (r: Option<nat>)
    ensures r.Some? ==> r.value < |ps|
  {
    if ps == [] then None
    else
      var f := FirstContributor(lib, ps[..|ps| - 1]);
      if f.Some? then f
      else if Contribution(lib, ps[|ps| - 1]) != "" then Some(|ps| - 1)
      else None
  }

  /** `FirstContributor` finds the first part with something to add, or reports that no
      part has any. */
  lemma {:induction false} FirstContributorSpec(lib: Library, ps: seq<Part>)
    ensures FirstContributor(lib, ps).None? ==> forall i :: 0 <= i < |ps| ==> Contribution(lib, ps[i]) == ""
    ensures FirstContributor(lib, ps).Some? ==>
              var k := FirstContributor(lib, ps).value;
              Contribution(lib, ps[k]) != "" && forall i :: 0 <= i < k ==> Contribution(lib, ps[i]) == ""
    decreases |ps|
  {
    if ps != [] {
      var init := ps[..|ps| - 1];
      FirstContributorSpec(lib, init);
      assert forall i :: 0 <= i < |init| ==> init[i] == ps[i];
    }
  }

  /** The decoded inline `text/plain` parts, joined in walk order. */
  function PlainBody(lib: Library, ps: seq<Part>): string
  {
    if ps == [] then ""
    else
      var last := ps[|ps| - 1];
      PlainBody(lib, ps[..|ps| - 1]) + (if PlainInline(last) then Contribution(lib, last) else "")
  }

  /** The body, stated without the loop: nothing until the first part with something to
      add (plain or HTML); that part's text; then every later inline plain part. HTML
      contributes only while the body is empty, plain text always. */
  function SelectedBody(lib: Library, ps: seq<Part>): string
  {
    match FirstContributor(lib, ps)
    case None => ""
    case Some(k) => Contribution(lib, ps[k]) + PlainBody(lib, ps[k + 1..])
  }

  /** One step's effect on the body: an empty body takes the part's contribution, a
      non-empty one grows only by inline plain text. */
  lemma StepBody(lib: Library, acc: Acc, p: Part)
    ensures Step(lib, acc, p).body
            == if acc.body == "" then Contribution(lib, p)
               else acc.body + (if PlainInline(p) then Contribution(lib, p) else "")
  {
    if acc.body == "" && PlainInline(p) {
      assert acc.body + Contribution(lib, p) == Contribution(lib, p);
    } else if acc.body == "" && HtmlInline(p) {
      assert acc.body + Contribution(lib, p) == Contribution(lib, p);
    }
  }

  lemma {:induction false} BodySelection(lib: Library, ps: seq<Part>)
    ensures Fold(lib, ps).body == SelectedBody(lib, ps)
    decreases |ps|
  {
    if ps != [] {
      var init := ps[..|ps| - 1];
      BodySelection(lib, init);
      if FirstContributor(lib, init).Some? {
        BodyAfterFirst(lib, ps);
      } else {
        BodyUpToFirst(lib, ps);
      }
    }
  }

  /** Once some part has contributed, a step adds only inline plain text. */
  lemma BodyAfterFirst(lib: Library, ps: seq<Part>)
    requires ps != []
    requires FirstContributor(lib, ps[..|ps| - 1]).Some?
    requires Fold(lib, ps[..|ps| - 1]).body == SelectedBody(lib, ps[..|ps| - 1])
    ensures Fold(lib, ps).body == SelectedBody(lib, ps)
  {
    var init, p := ps[..|ps| - 1], ps[|ps| - 1];
    var acc := Fold(lib, init);
    assert Fold(lib, ps) == Step(lib, acc, p);
    SelectedNonEmpty(lib, init);
    StepBody(lib, acc, p);
    SelectedSnoc(lib, ps);
  }

  lemma SelectedNonEmpty(lib: Library, ps: seq<Part>)
    requires FirstContributor(lib, ps).Some?
    ensures SelectedBody(lib, ps) != ""
  {
    FirstContributorSpec(lib, ps);
  }

  /** After the first contributor, the selected body grows by inline plain text only. */
  lemma SelectedSnoc(lib: Library, ps: seq<Part>)
    requires ps != []
    requires FirstContributor(lib, ps[..|ps| - 1]).Some?
    ensures SelectedBody(lib, ps)
            == SelectedBody(lib, ps[..|ps| - 1])
               + (if PlainInline(ps[|ps| - 1]) then Contribution(lib, ps[|ps| - 1]) else "")
  {
    var init, p := ps[..|ps| - 1], ps[|ps| - 1];
    var k := FirstContributor(lib, init).value;
    var mid := init[k + 1..];
    var head, extra := Contribution(lib, init[k]), if PlainInline(p) then Contribution(lib, p) else "";
    SelectedAt(lib, init, k);
    FirstKept(lib, ps);
    SelectedAt(lib, ps, k);
    SliceSnoc(ps, k);
    PlainBodySnoc(lib, mid, p);
    AppendAssoc(head, PlainBody(lib, mid), extra);
  }

  /** Adding a part keeps an earlier first contributor. */
  lemma FirstKept(lib: Library, ps: seq<Part>)
    requires ps != [] && FirstContributor(lib, ps[..|ps| - 1]).Some?
    ensures FirstContributor(lib, ps) == FirstContributor(lib, ps[..|ps| - 1])
  {
  }

  /** The selected body when the first contributor is at `k`. */
  lemma SelectedAt(lib: Library, ps: seq<Part>, k: nat)
    requires FirstContributor(lib, ps) == Some(k)
    ensures k < |ps| && SelectedBody(lib, ps) == Contribution(lib, ps[k]) + PlainBody(lib, ps[k + 1..])
  {
  }

  /** Splitting before the last element, seen from position `k`. */
  lemma SliceSnoc<T>(xs: seq<T>, k: nat)
    requires k < |xs| - 1
    ensures xs[k] == xs[..|xs| - 1][k] && xs[k + 1..] == xs[..|xs| - 1][k + 1..] + [xs[|xs| - 1]]
  {
  }

  lemma PlainBodySnoc(lib: Library, xs: seq<Part>, p: Part)
    ensures PlainBody(lib, xs + [p]) == PlainBody(lib, xs) + (if PlainInline(p) then Contribution(lib, p) else "")
  {
    assert (xs + [p])[..|xs|] == xs;
  }

  /** While no part has contributed, the body stays empty and the first contributor sets it. */
  lemma BodyUpToFirst(lib: Library, ps: seq<Part>)
    requires ps != []
    requires FirstContributor(lib, ps[..|ps| - 1]).None?
    requires Fold(lib, ps[..|ps| - 1]).body == SelectedBody(lib, ps[..|ps| - 1])
    ensures Fold(lib, ps).body == SelectedBody(lib, ps)
  {
    var init, p := ps[..|ps| - 1], ps[|ps| - 1];
    var acc := Fold(lib, init);
    assert Fold(lib, ps) == Step(lib, acc, p);
    StepBody(lib, acc, p);
    assert acc.body == "";
    if Contribution(lib, p) != "" {
      assert FirstContributor(lib, ps) == Some(|init|);
      assert ps[|init| + 1..] == [];
      assert SelectedBody(lib, ps) == Contribution(lib, p) + PlainBody(lib, []);
    } else {
      assert FirstContributor(lib, ps).None?;
    }
  }

  /** With no inline HTML part, the body is the inline plain parts joined in walk order. */
  lemma {:induction false} BodyWithoutHtml(lib: Library, ps: seq<Part>)
    requires forall i :: 0 <= i < |ps| ==> !HtmlInline(ps[i])
    ensures Fold(lib, ps).body == PlainBody(lib, ps)
    decreases |ps|
  {
    if ps != [] {
      BodyWithoutHtml(lib, ps[..|ps| - 1]);
    }
  }

  // ---------------------------------------------------------------- attachments

  /** The attachments of the parts that may become one: every part other than an inline
      plain text part, with a filename and a non-empty payload, in walk order. */
  function Candidates(lib: Library, ps: seq<Part>): seq<Attachment>
  {
    if ps == [] then []
    else
      var last := ps[|ps| - 1];
      var a := AttachmentOf(lib, last);
      Candidates(lib, ps[..|ps| - 1]) + (if !PlainInline(last) && a.Some? then [a.value] else [])
  }

  /** The attachments of the parts whose disposition names `attachment`, in walk order. */
  function Explicit(lib: Library, ps: seq<Part>): seq<Attachment>
  {
    if ps == [] then []
    else
      var last := ps[|ps| - 1];
      var a := AttachmentOf(lib, last);
      Explicit(lib, ps[..|ps| - 1]) + (if Contains(last.disposition, "attachment") && a.Some? then [a.value] else [])
  }

  /** `a` is `b` with some elements left out, the rest in the same order. */
  predicate IsSubseq<T(==)>(a: seq<T>, b: seq<T>)
    decreases |b|
  {
    if a == [] then true
    else if b == [] then false
    else (a[|a| - 1] == b[|b| - 1] && IsSubseq(a[..|a| - 1], b[..|b| - 1])) || IsSubseq(a, b[..|b| - 1])
  }

  lemma SubseqExtend<T>(a: seq<T>, b: seq<T>, x: T, both: bool)
    requires IsSubseq(a, b)
    ensures IsSubseq(if both then a + [x] else a, b + [x])
  {
    assert (b + [x])[..|b|] == b;
    if both {
      assert (a + [x])[..|a|] == a;
    }
  }

  /** The attachment branch is reached and records something. */
  predicate Recorded(lib: Library, body: string, p: Part) {
    !PlainInline(p) && !(HtmlInline(p) && body == "") && AttachmentOf(lib, p).Some?
  }

  /** One step's effect on the attachments. */
  lemma StepAttachments(lib: Library, acc: Acc, p: Part)
    ensures Step(lib, acc, p).attachments
            == acc.attachments + (if Recorded(lib, acc.body, p) then [AttachmentOf(lib, p).value] else [])
  {
    if !Recorded(lib, acc.body, p) {
      assert acc.attachments + [] == acc.attachments;
    }
  }

  /** Attachments keep walk order; every part with an `attachment` disposition, a filename
      and a payload is recorded; and nothing is recorded from an inline plain text part or a
      part without a filename or payload. */
  lemma {:induction false} AttachmentsInWalkOrder(lib: Library, ps: seq<Part>)
    ensures IsSubseq(Explicit(lib, ps), Fold(lib, ps).attachments)
    ensures IsSubseq(Fold(lib, ps).attachments, Candidates(lib, ps))
    decreases |ps|
  {
    if ps != [] {
      var init, p := ps[..|ps| - 1], ps[|ps| - 1];
      AttachmentsInWalkOrder(lib, init);
      var acc := Fold(lib, init);
      assert Fold(lib, ps) == Step(lib, acc, p);
      StepAttachments(lib, acc, p);
      var a := AttachmentOf(lib, p);
      var explicit := Contains(p.disposition, "attachment") && a.Some?;
      var recorded := Recorded(lib, acc.body, p);
      var candidate := !PlainInline(p) && a.Some?;
      assert explicit ==> recorded;
      assert recorded ==> candidate;
      if a.Some? {
        SubseqExtend(Explicit(lib, init), acc.attachments, a.value, explicit);
        SubseqExtend(acc.attachments, Candidates(lib, init), a.value, recorded);
        if !explicit {
          assert Explicit(lib, ps) == Explicit(lib, init);
        }
        if !recorded {
          assert Fold(lib, ps).attachments == acc.attachments;
        }
        if candidate {
          assert Candidates(lib, ps) == Candidates(lib, init) + [a.value];
        } else {
          assert Candidates(lib, ps) == Candidates(lib, init);
        }
      } else {
        assert Explicit(lib, ps) == Explicit(lib, init);
        assert Candidates(lib, ps) == Candidates(lib, init);
        assert Fold(lib, ps).attachments == acc.attachments;
      }
    }
  }

  /** Without inline HTML, the recorded attachments are exactly the candidates. */
  lemma {:induction false} AttachmentsWithoutHtml(lib: Library, ps: seq<Part>)
    requires forall i :: 0 <= i < |ps| ==> !HtmlInline(ps[i])
    ensures Fold(lib, ps).attachments == Candidates(lib, ps)
    decreases |ps|
  {
    if ps != [] {
      AttachmentsWithoutHtml(lib, ps[..|ps| - 1]);
    }
  }

  // ---------------------------------------------------------------- the record

  /** The `Date` header parsed, or absent when missing, empty or unparseable. */
  function DateOf(lib: Library, h: Option<string>): (r: Option<DateTime>)
    ensures h.None? || h.value == "" ==> r.None?
    ensures h.Some? && h.value != "" ==> r == lib.parseDate(h.value)
  {
    if h.Some? && h.value != "" then lib.parseDate(h.value) else None
  }

  /** The record `extract_email_parts(msg)` builds, with `DecodeContent` as corrected: the
      loop always completes. `ExtractAsWritten` is the code as written, which may abort. */
  function Extract(lib: Library, msg: Part): EmailRecord
  {
    var acc := Fold(lib, Walk(msg));
    EmailRecord(
      DateOf(lib, msg.headers.date),
      HeaderText(lib, Some(msg.headers.from)),
      HeaderText(lib, Some(msg.headers.to)),
      HeaderText(lib, Some(msg.headers.cc)),
      HeaderText(lib, Some(msg.headers.subject)),
      acc.body,
      acc.attachments)
  }

  /** `extract_email_parts`: headers decoded, then one pass over the walk that appends to the
      body and the attachment list. */
  method ExtractEmailParts(lib: Library, msg: Part) returns (rec: EmailRecord)
    ensures rec == Extract(lib, msg)
  {
    var date: Option<DateTime> := None;
    var dateStr := msg.headers.date;
    if dateStr.Some? && dateStr.value != "" {
      date := lib.parseDate(dateStr.value);
    }
    var bodyText := "";
    var attachments: seq<Attachment> := [];
    var walk := Walk(msg);
    var i := 0;
    while i < |walk|
      invariant 0 <= i <= |walk|
      invariant Acc(bodyText, attachments) == Fold(lib, walk[..i])
    {
      var part := walk[i];
      assert walk[..i + 1] == walk[..i] + [part];
      FoldSnoc(lib, walk[..i], part);
      StepCases(lib, Acc(bodyText, attachments), part);
      if PlainInline(part) {
        bodyText := bodyText + DecodeContent(lib, part.body.payload, part.charset);
      } else if HtmlInline(part) && bodyText == "" {
        var htmlContent := DecodeContent(lib, part.body.payload, part.charset);
        bodyText := bodyText + StripTags(htmlContent);
      } else if Contains(part.disposition, "attachment") || HasFilename(part) {
        var filename := part.filename;
        if filename.Some? && filename.value != "" {
          var name := DecodeEmailHeader(lib, filename);
          if part.body.Leaf? && |part.body.payload| > 0 {
            attachments := attachments + [Attachment(name, part.body.payload, part.contentType)];
          }
        }
      }
      i := i + 1;
    }
    assert walk[..|walk|] == walk;
    var fromAddr := DecodeEmailHeader(lib, Some(msg.headers.from));
    var toAddr := DecodeEmailHeader(lib, Some(msg.headers.to));
    var ccAddr := DecodeEmailHeader(lib, Some(msg.headers.cc));
    var subject := DecodeEmailHeader(lib, Some(msg.headers.subject));
    rec := EmailRecord(date, fromAddr, toAddr, ccAddr, subject, bodyText, attachments);
  }

  // ---------------------------------------------------------------- the loop as written

  /** One pass of the loop with `decode_content` as written: a `LookupError` from a text
      part's decoding escapes the loop, and nothing after it runs. */
  function StepAsWritten(lib: Library, acc: Result<Acc>, p: Part): Result<Acc>
  {
    if acc.Raised? then acc
    else if PlainInline(p) then
      match DecodeContentAsWritten(lib, p.body.payload, p.charset)
      case Ok(t) => Ok(Acc(acc.value.body + t, acc.value.attachments))
      case Raised(x) => Raised(x)
    else if HtmlInline(p) && acc.value.body == "" then
      match DecodeContentAsWritten(lib, p.body.payload, p.charset)
      case Ok(t) => Ok(Acc(acc.value.body + StripTags(t), acc.value.attachments))
      case Raised(x) => Raised(x)
    else Ok(Step(lib, acc.value, p))
  }

  function FoldAsWritten(lib: Library, ps: seq<Part>): Result<Acc>
  {
    if ps == [] then Ok(Acc("", []))
    else StepAsWritten(lib, FoldAsWritten(lib, ps[..|ps| - 1]), ps[|ps| - 1])
  }

  /** `extract_email_parts(msg)` as written: the record, or the exception that escapes it. */
  function ExtractAsWritten(lib: Library, msg: Part): (r: Result<EmailRecord>)
    ensures r.Ok? <==> FoldAsWritten(lib, Walk(msg)).Ok?
  {
    match FoldAsWritten(lib, Walk(msg))
    case Raised(x) => Raised(x)
    case Ok(acc) =>
      Ok(EmailRecord(
        DateOf(lib, msg.headers.date),
        HeaderText(lib, Some(msg.headers.from)),
        HeaderText(lib, Some(msg.headers.to)),
        HeaderText(lib, Some(msg.headers.cc)),
        HeaderText(lib, Some(msg.headers.subject)),
        acc.body,
        acc.attachments))
  }

  /** A text part whose decoding raises: the loop as written aborts on it. */
  predicate RaisesOn(lib: Library, p: Part) {
    (PlainInline(p) || HtmlInline(p)) && DecodeContentAsWritten(lib, p.body.payload, p.charset).Raised?
  }

  /** Where the loop as written completes, it builds what the corrected loop builds. */
  lemma {:induction false} FoldAsWrittenAgrees(lib: Library, ps: seq<Part>)
    ensures FoldAsWritten(lib, ps).Ok? ==> FoldAsWritten(lib, ps).value == Fold(lib, ps)
    decreases |ps|
  {
    if ps != [] {
      var init, p := ps[..|ps| - 1], ps[|ps| - 1];
      FoldAsWrittenAgrees(lib, init);
      if FoldAsWritten(lib, init).Ok? && (PlainInline(p) || HtmlInline(p)) {
        DecodeContentAgrees(lib, p.body.payload, p.charset);
      }
    }
  }

  /** With no text part that raises, the loop as written completes. */
  lemma {:induction false} FoldAsWrittenCompletes(lib: Library, ps: seq<Part>)
    requires forall k :: 0 <= k < |ps| ==> !RaisesOn(lib, ps[k])
    ensures FoldAsWritten(lib, ps).Ok?
    decreases |ps|
  {
    if ps != [] {
      var init := ps[..|ps| - 1];
      forall k | 0 <= k < |init| ensures !RaisesOn(lib, init[k]) {
        assert init[k] == ps[k];
      }
      FoldAsWrittenCompletes(lib, init);
      assert !RaisesOn(lib, ps[|ps| - 1]);
    }
  }

  /** A plain text part whose decoding raises aborts the loop as written, wherever it lies. */
  lemma {:induction false} FoldAsWrittenAborts(lib: Library, ps: seq<Part>, k: nat)
    requires k < |ps| && PlainInline(ps[k])
    requires DecodeContentAsWritten(lib, ps[k].body.payload, ps[k].charset).Raised?
    ensures FoldAsWritten(lib, ps).Raised?
    decreases |ps|
  {
    var init := ps[..|ps| - 1];
    if k < |ps| - 1 {
      assert init[k] == ps[k];
      FoldAsWrittenAborts(lib, init, k);
    }
  }

  /** The record as written is the corrected record, unless a text part's decoding raises. */
  lemma ExtractAsWrittenAgrees(lib: Library, msg: Part)
    ensures ExtractAsWritten(lib, msg).Ok? ==> ExtractAsWritten(lib, msg).value == Extract(lib, msg)
    ensures (forall k :: 0 <= k < |Walk(msg)| ==> !RaisesOn(lib, Walk(msg)[k]))
            ==> ExtractAsWritten(lib, msg) == Ok(Extract(lib, msg))
  {
    FoldAsWrittenAgrees(lib, Walk(msg));
    if forall k :: 0 <= k < |Walk(msg)| ==> !RaisesOn(lib, Walk(msg)[k]) {
      FoldAsWrittenCompletes(lib, Walk(msg));
    }
  }

  /** A plain text part whose decoding raises (`unknown-8bit` where the library has no such
      codec: `UnknownCharsetRaises`) makes the extraction as written raise. */
  lemma ExtractAsWrittenRaises(lib: Library, msg: Part, k: nat)
    requires k < |Walk(msg)| && PlainInline(Walk(msg)[k])
    requires DecodeContentAsWritten(lib, Walk(msg)[k].body.payload, Walk(msg)[k].charset).Raised?
    ensures ExtractAsWritten(lib, msg).Raised?
  {
    FoldAsWrittenAborts(lib, Walk(msg), k);
  }

  // ---------------------------------------------------------------- thread selection

  predicate IsRfc822(q: Part) { q.contentType == "message/rfc822" }

  /** `any(part.get_content_type() == 'message/rfc822' for part in ps)`. */
  predicate AnyRfc822(ps: seq<Part>) {
    ps != [] && (AnyRfc822(ps[..|ps| - 1]) || IsRfc822(ps[|ps| - 1]))
  }

  lemma {:induction false} AnyRfc822Iff(ps: seq<Part>)
    ensures AnyRfc822(ps) <==> exists j :: 0 <= j < |ps| && IsRfc822(ps[j])
  {
    if ps != [] {
      var init := ps[..|ps| - 1];
      AnyRfc822Iff(init);
      if exists j :: 0 <= j < |ps| && IsRfc822(ps[j]) {
        var j :| 0 <= j < |ps| && IsRfc822(ps[j]);
        if j < |init| {
          assert IsRfc822(init[j]);
        }
      }
      if AnyRfc822(init) {
        var j :| 0 <= j < |init| && IsRfc822(init[j]);
        assert IsRfc822(ps[j]);
      }
    }
  }

  /** The condition of `process_eml_file`'s branch: a `multipart/mixed` top part with a
      `message/rfc822` part somewhere in its walk. */
  predicate IsThread(msg: Part) {
    msg.contentType == "multipart/mixed" && AnyRfc822(Walk(msg))
  }

  /** `f` applied to the first `n` sub-messages of `q`, in order. */
  function ChildrenMap<T>(f: Part -> T, q: Part, n: nat): (r: seq<T>)
    requires n <= |Children(q)|
    ensures |r| == n
  {
    if n == 0 then [] else ChildrenMap(f, q, n - 1) + [f(Children(q)[n - 1])]
  }

  lemma {:induction false} ChildrenMapAt<T>(f: Part -> T, q: Part, n: nat, i: nat)
    requires i < n <= |Children(q)|
    ensures ChildrenMap(f, q, n)[i] == f(Children(q)[i])
    decreases n
  {
    if i < n - 1 {
      ChildrenMapAt(f, q, n - 1, i);
    }
  }

  /** What one walked part adds to a thread: its sub-messages when it is `message/rfc822`
      with a list payload. */
  function EmbeddedOf<T>(f: Part -> T, q: Part): seq<T>
  {
    if IsRfc822(q) && q.body.Multi? then ChildrenMap(f, q, |Children(q)|) else []
  }

  /** The embedded messages of the `message/rfc822` parts among `ps`, in walk order. */
  function Embedded<T>(f: Part -> T, ps: seq<Part>): seq<T>
  {
    if ps == [] then [] else Embedded(f, ps[..|ps| - 1]) + EmbeddedOf(f, ps[|ps| - 1])
  }

  lemma EmbeddedSnoc<T>(f: Part -> T, ps: seq<Part>, q: Part)
    ensures Embedded(f, ps + [q]) == Embedded(f, ps) + EmbeddedOf(f, q)
  {
    assert (ps + [q])[..|ps|] == ps;
  }

  /** One pass of the outer loop of the thread branch, for any extractor. */
  lemma EmbeddedStep<T>(f: Part -> T, ws: seq<Part>, i: nat, head: seq<T>, before: seq<T>, after: seq<T>)
    requires i < |ws|
    requires before == head + Embedded(f, ws[..i])
    requires after == before + EmbeddedOf(f, ws[i])
    ensures after == head + Embedded(f, ws[..i + 1])
  {
    EmbeddedPrefix(f, ws, i);
    AppendAssoc(head, Embedded(f, ws[..i]), EmbeddedOf(f, ws[i]));
  }

  lemma EmbeddedPrefix<T>(f: Part -> T, ws: seq<Part>, i: nat)
    requires i < |ws|
    ensures Embedded(f, ws[..i + 1]) == Embedded(f, ws[..i]) + EmbeddedOf(f, ws[i])
  {
    assert ws[..i + 1][..i] == ws[..i];
  }

  /** Every element is `f` of a sub-message of some `message/rfc822` part among `ps`. */
  lemma {:induction false} EmbeddedAreSubmessages<T>(f: Part -> T, ps: seq<Part>, k: nat)
    requires k < |Embedded(f, ps)|
    ensures exists j, i :: 0 <= j < |ps| && IsRfc822(ps[j]) && 0 <= i < |Children(ps[j])|
                           && Embedded(f, ps)[k] == f(Children(ps[j])[i])
    decreases |ps|
  {
    var init, q := ps[..|ps| - 1], ps[|ps| - 1];
    var e := Embedded(f, init);
    assert Embedded(f, ps) == e + EmbeddedOf(f, q);
    if k < |e| {
      EmbeddedAreSubmessages(f, init, k);
      var j, i :| 0 <= j < |init| && IsRfc822(init[j]) && 0 <= i < |Children(init[j])|
                  && e[k] == f(Children(init[j])[i]);
      assert ps[j] == init[j];
    } else {
      ChildrenMapAt(f, q, |Children(q)|, k - |e|);
      assert ps[|ps| - 1] == q;
    }
  }

  /** The extractor, as a function value. */
  function Extractor(lib: Library): Part -> EmailRecord
  {
    (p: Part) => Extract(lib, p)
  }

  /** The records `process_eml_file` renders: the container's own, then for a thread the
      records of the embedded messages. */
  function ThreadRecords(lib: Library, msg: Part): (r: seq<EmailRecord>)
    ensures |r| >= 1 && r[0] == Extract(lib, msg)
    ensures |r| > 1 ==> IsThread(msg)
  {
    if IsThread(msg) then [Extract(lib, msg)] + Embedded(Extractor(lib), Walk(msg))
    else [Extract(lib, msg)]
  }

  /** The inner loop of the thread branch: the records of the sub-messages of one walked part,
      when it is `message/rfc822` with a list payload. */
  method ExtractEmbedded(lib: Library, part: Part) returns (records: seq<EmailRecord>)
    ensures records == EmbeddedOf(Extractor(lib), part)
  {
    records := [];
    if IsRfc822(part) && part.body.Multi? {
      var embeddedMsgs := part.body.parts;
      var j := 0;
      while j < |embeddedMsgs|
        invariant 0 <= j <= |embeddedMsgs|
        invariant records == ChildrenMap(Extractor(lib), part, j)
      {
        var e := ExtractEmailParts(lib, embeddedMsgs[j]);
        records := records + [e];
        j := j + 1;
      }
    }
  }

  /** The outer loop of the thread branch: the records embedded in the walked parts, in order. */
  method ExtractAllEmbedded(lib: Library, walk: seq<Part>) returns (records: seq<EmailRecord>)
    ensures records == Embedded(Extractor(lib), walk)
  {
    records := [];
    ghost var ex := Extractor(lib);
    var i := 0;
    assert walk[..0] == [];
    while i < |walk|
      invariant 0 <= i <= |walk|
      invariant records == [] + Embedded(ex, walk[..i])
    {
      var part := walk[i];
      ghost var before := records;
      var embedded := ExtractEmbedded(lib, part);
      records := records + embedded;
      EmbeddedStep(ex, walk, i, [], before, records);
      i := i + 1;
    }
    assert walk[..|walk|] == walk;
  }

  /** The thread-selection branch of `process_eml_file`: the container's own record first,
      then, for a thread, one record per sub-message of each `message/rfc822` part met while
      walking the container. */
  method SelectThread(lib: Library, msg: Part) returns (emails: seq<EmailRecord>)
    ensures emails == ThreadRecords(lib, msg)
  {
    var walk := Walk(msg);
    if msg.contentType == "multipart/mixed" && AnyRfc822(walk) {
      var mainEmail := ExtractEmailParts(lib, msg);
      emails := [mainEmail];
      var embedded := ExtractAllEmbedded(lib, walk);
      emails := emails + embedded;
    } else {
      var single := ExtractEmailParts(lib, msg);
      emails := [single];
    }
  }
}
