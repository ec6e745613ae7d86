/** The Markdown document the forward converter writes (`create_markdown_content`) and the
    file name it saves each attachment under (`process_eml_file`). */
module EmlRender {
  import opened Results
  import opened Text
  import opened Sorting
  import opened DateTimes
  import opened EmlExtract

  /** The sort key of `create_markdown_content`: the date, or `datetime.min` when there is none. */
  function OldestKey(r: EmailRecord): int
  {
    if r.date.Some? then Ord(r.date.value) else Ord(MinDateTime)
  }

  /** The records in the order they are rendered: a stable ascending sort by date. */
  function Oldest(rs: seq<EmailRecord>): seq<EmailRecord>
  {
    SortByKey(rs, OldestKey)
  }

  /** The records are rendered oldest first; an undated record sorts as `datetime.min`, so it
      never comes after a record dated later than that, records with equal keys keep their
      input order, and no record is lost or duplicated. */
  lemma RenderOrder(rs: seq<EmailRecord>)
    ensures multiset(Oldest(rs)) == multiset(rs)
    ensures forall i, j :: 0 <= i < j < |Oldest(rs)| && Oldest(rs)[i].date.Some? && Oldest(rs)[j].date.Some?
              ==> !Before(Oldest(rs)[j].date.value, Oldest(rs)[i].date.value)
    ensures forall i, j :: 0 <= i < j < |Oldest(rs)| && Oldest(rs)[i].date.Some? && Oldest(rs)[i].date.value != MinDateTime
              ==> Oldest(rs)[j].date.Some?
    ensures forall k :: WithKey(Oldest(rs), OldestKey, k) == WithKey(rs, OldestKey, k)
  {
    var s := Oldest(rs);
    forall i, j | 0 <= i < j < |s| && s[i].date.Some? && s[j].date.Some?
      ensures !Before(s[j].date.value, s[i].date.value)
    {
      OrdOrder(s[j].date.value, s[i].date.value);
    }
    forall i, j | 0 <= i < j < |s| && s[i].date.Some? && s[i].date.value != MinDateTime
      ensures s[j].date.Some?
    {
      OrdOrder(s[i].date.value, MinDateTime);
    }
  }

  /** A header line, `**name**: value`, and the blank line after it. */
  function HeaderLine(name: string, value: string): string
  {
    "**" + name + "**: " + value + "\n\n"
  }

  /** The heading that opens the `idx`-th section. */
  function Heading(idx: nat): string
  {
    "## Email " + Decimal(idx) + "\n\n"
  }

  /** The `**Date**` line: present exactly when the record has a date. */
  function DateLine(r: EmailRecord): (line: string)
    ensures line == "" <==> r.date.None?
  {
    if r.date.Some? then HeaderLine("Date", FormatSeconds(r.date.value)) else ""
  }

  /** The `**CC**` line: present exactly when the CC header is non-empty. */
  function CcLine(r: EmailRecord): (line: string)
    ensures line == "" <==> r.cc == ""
  {
    if r.cc != "" then HeaderLine("CC", r.cc) else ""
  }

  /** `- [name](name)`: a link whose text and target are both the attachment's name. */
  function AttachmentLink(a: Attachment): string
  {
    "- [" + a.filename + "](" + a.filename + ")\n"
  }

  /** One link line per attachment, in order. */
  function AttachmentLinks(atts: seq<Attachment>): string
  {
    ConcatMap(AttachmentLink, atts)
  }

  /** The attachments block: present exactly when the record has attachments. */
  function AttachmentBlock(atts: seq<Attachment>): (block: string)
    ensures block == "" <==> atts == []
  {
    if atts == [] then "" else "### Attachments\n\n" + AttachmentLinks(atts) + "\n"
  }

  /** Everything of a section up to its body. */
  function SectionHead(r: EmailRecord, idx: nat): string
  {
    Heading(idx) + DateLine(r) + HeaderLine("From", r.from) + HeaderLine("To", r.to) + CcLine(r)
    + HeaderLine("Subject", r.subject) + "### Content\n\n"
  }

  /** The section of the `idx`-th record: headers, the stripped body, the attachments, a rule. */
  function Section(r: EmailRecord, idx: nat): string
  {
    SectionHead(r, idx) + Strip(r.body) + "\n\n" + AttachmentBlock(r.attachments) + "---\n\n"
  }

  /** The sections of `rs`, numbered from 1. */
  function Sections(rs: seq<EmailRecord>): string
  {
    NumberedConcat(Section, rs)
  }

  /** The whole document. */
  function Render(rs: seq<EmailRecord>): string
  {
    "# Email Thread\n\n" + Sections(Oldest(rs))
  }

  /** The document opens with the thread title. */
  lemma RenderTitle(rs: seq<EmailRecord>)
    ensures StartsWith(Render(rs), "# Email Thread\n\n")
  {
    StartsWithJoint("# Email Thread\n\n", Sections(Oldest(rs)));
  }

  /** The `i`-th record in date order is the document's section `i + 1`, right after the
      title and the sections of the records before it. */
  lemma RenderSectionAt(rs: seq<EmailRecord>, i: nat)
    requires i < |rs|
    ensures StartsAt(Render(rs), 16 + |Sections(Oldest(rs)[..i])|, Section(Oldest(rs)[i], i + 1))
  {
    var s := Oldest(rs);
    SectionsAt(s, i);
    StartsAtShift("# Email Thread\n\n", Sections(s), |Sections(s[..i])|, Section(s[i], i + 1));
  }

  /** The `i`-th record's section comes right after the sections of the records before it. */
  lemma SectionsAt(s: seq<EmailRecord>, i: nat)
    requires i < |s|
    ensures StartsAt(Sections(s), |Sections(s[..i])|, Section(s[i], i + 1))
  {
    NumberedConcatAt(Section, s, i);
  }

  /** `create_markdown_content`: sorts the records by date and appends one section per
      record, numbered from 1. */
  method CreateMarkdownContent(emails: seq<EmailRecord>) returns (md: string)
    ensures md == Render(emails)
  {
    var sorted := Oldest(emails);
    md := AppendSections("# Email Thread\n\n", sorted);
  }

  /** The loop of `create_markdown_content` over the sorted records. */
  method AppendSections(start: string, sorted: seq<EmailRecord>) returns (md: string)
    ensures md == start + Sections(sorted)
  {
    md := start;
    var idx := 0;
    while idx < |sorted|
      invariant 0 <= idx <= |sorted|
      invariant md == start + Sections(sorted[..idx])
    {
      var email := sorted[idx];
      var section := AppendSection(email, idx + 1);
      NumberedConcatPrefix(Section, sorted, idx);
      AppendAssoc(start, Sections(sorted[..idx]), section);
      md := md + section;
      idx := idx + 1;
    }
    assert sorted[..idx] == sorted;
  }

  /** The loop body of `create_markdown_content`: the text appended for one record. */
  method AppendSection(email: EmailRecord, idx: nat) returns (section: string)
    ensures section == Section(email, idx)
  {
    section := Heading(idx);
    ghost var part := section;
    if email.date.Some? {
      section := section + HeaderLine("Date", FormatSeconds(email.date.value));
    }
    assert section == part + DateLine(email);
    section := section + HeaderLine("From", email.from) + HeaderLine("To", email.to);
    part := section;
    if email.cc != "" {
      section := section + HeaderLine("CC", email.cc);
    }
    assert section == part + CcLine(email);
    section := section + HeaderLine("Subject", email.subject) + "### Content\n\n";
    assert section == SectionHead(email, idx);
    section := section + Strip(email.body) + "\n\n";
    part := section;
    if email.attachments != [] {
      var links := AppendAttachmentLinks(email.attachments);
      section := section + ("### Attachments\n\n" + links + "\n");
    }
    assert section == part + AttachmentBlock(email.attachments);
    section := section + "---\n\n";
  }

  /** The inner loop of `create_markdown_content`: one link line per attachment. */
  method AppendAttachmentLinks(atts: seq<Attachment>) returns (links: string)
    ensures links == AttachmentLinks(atts)
  {
    links := "";
    var j := 0;
    while j < |atts|
      invariant 0 <= j <= |atts|
      invariant links == AttachmentLinks(atts[..j])
    {
      ConcatMapPrefix(AttachmentLink, atts, j);
      links := links + ("- [" + atts[j].filename + "](" + atts[j].filename + ")\n");
      j := j + 1;
    }
    assert atts[..j] == atts;
  }

  /** The characters `[^\w\.-]` does not match: word characters, `.` and `-`. */
  predicate SafeChar(c: char) { IsWordChar(c) || c == '.' || c == '-' }

  /** `re.sub(r'[^\w\.-]', '_', name)`: every other character becomes `_`. */
  function SanitizeFilename(name: string): (r: string)
    ensures |r| == |name|
    ensures forall i :: 0 <= i < |name| ==> r[i] == (if SafeChar(name[i]) then name[i] else '_')
  {
    if name == [] then [] else [if SafeChar(name[0]) then name[0] else '_'] + SanitizeFilename(name[1..])
  }

  /** The saved name is made of safe characters only, so it holds no path separator. */
  lemma SanitizedIsSafe(name: string)
    ensures forall i :: 0 <= i < |SanitizeFilename(name)| ==> SafeChar(SanitizeFilename(name)[i])
    ensures '/' !in SanitizeFilename(name) && '\\' !in SanitizeFilename(name)
  {
    var r := SanitizeFilename(name);
    assert forall i :: 0 <= i < |r| ==> SafeChar(r[i]);
  }

  /** A name made of safe characters is kept as is. */
  lemma SanitizeSafeNoop(name: string)
    requires forall i :: 0 <= i < |name| ==> SafeChar(name[i])
    ensures SanitizeFilename(name) == name
  {
  }

  lemma SanitizeIdempotent(name: string)
    ensures SanitizeFilename(SanitizeFilename(name)) == SanitizeFilename(name)
  {
    SanitizedIsSafe(name);
    SanitizeSafeNoop(SanitizeFilename(name));
  }
}
