/** Reading back what the forward converter writes: one section of the document built by
    `create_markdown_content` (eml2md.py), given to the chunk parser of `parse_emails`
    (read_md_email.py), yields the section's number, the sender, the date to the minute, the
    subject and the trimmed body. */
module RoundTrip {
  import opened Results
  import opened Text
  import opened DateTimes
  import opened MdText
  import opened EmlExtract
  import opened EmlRender
  import opened MdParse

  // ---------------------------------------------------------------- where a pattern occurs

  /** `pat` occurs nowhere in `s`. */
  ghost predicate Absent(s: string, pat: string) {
    forall j :: !StartsAt(s, j, pat)
  }

  /** A pattern whose first character is missing from a text does not occur in it. */
  lemma AbsentChar(s: string, pat: string)
    requires pat != [] && pat[0] !in s
    ensures Absent(s, pat)
  {
    forall j ensures !StartsAt(s, j, pat) {
      if 0 <= j && j + |pat| <= |s| {
        assert s[j..j + |pat|][0] == s[j];
      }
    }
  }

  /** A pattern holding a character that is missing from a text does not occur in it. */
  lemma AbsentCharAt(s: string, pat: string, k: nat)
    requires k < |pat| && pat[k] !in s
    ensures Absent(s, pat)
  {
    forall j ensures !StartsAt(s, j, pat) {
      if 0 <= j && j + |pat| <= |s| {
        assert s[j..j + |pat|][k] == s[j + k];
      }
    }
  }

  /** Joining two texts that hold no occurrence creates none when the pattern cannot
      straddle the joint: it would have to hold the last character of the first text and
      the first of the second. */
  lemma AbsentAppend(a: string, b: string, pat: string)
    requires Absent(a, pat) && Absent(b, pat)
    requires a != [] && b != [] ==> a[|a| - 1] !in pat || b[0] !in pat
    ensures Absent(a + b, pat)
  {
    var t := a + b;
    forall j ensures !StartsAt(t, j, pat) {
      if 0 <= j && j + |pat| <= |t| {
        if j + |pat| <= |a| {
          assert t[j..j + |pat|] == a[j..j + |pat|];
          assert !StartsAt(a, j, pat);
        } else if j >= |a| {
          assert t[j..j + |pat|] == b[j - |a|..j - |a| + |pat|];
          assert !StartsAt(b, j - |a|, pat);
        } else {
          var q := |a| - 1 - j;
          assert t[j..j + |pat|][q] == a[|a| - 1];
          assert t[j..j + |pat|][q + 1] == b[0];
          assert pat[q] in pat && pat[q + 1] in pat;
        }
      }
    }
  }

  /** `find` passes over a stretch without occurrences. */
  lemma {:induction false} FindSkip(t: string, pat: string, i: nat, j: nat)
    requires pat != [] && i <= j
    requires forall p :: i <= p < j ==> !StartsAt(t, p, pat)
    ensures FindFrom(t, pat, i) == FindFrom(t, pat, j)
    decreases j - i
  {
    if i < j && i + |pat| <= |t| {
      FindSkip(t, pat, i + 1, j);
    }
  }

  /** No occurrence starts inside a text holding none of the pattern, whose last character
      the pattern does not contain, whatever follows it. */
  lemma NoStartInPrefix(a: string, rest: string, pat: string, j: nat)
    requires Absent(a, pat) && (a == [] || a[|a| - 1] !in pat) && j < |a|
    ensures !StartsAt(a + rest, j, pat)
  {
    var t := a + rest;
    if j + |pat| <= |t| {
      if j + |pat| <= |a| {
        assert t[j..j + |pat|] == a[j..j + |pat|];
        assert !StartsAt(a, j, pat);
      } else {
        var q := |a| - 1 - j;
        assert t[j..j + |pat|][q] == a[|a| - 1];
        assert pat[q] in pat;
      }
    }
  }

  /** A pattern that starts right after a text holding none of it, whose last character
      the pattern does not contain, is found there. */
  lemma FindAfter(a: string, rest: string, pat: string)
    requires pat != [] && Absent(a, pat) && (a == [] || a[|a| - 1] !in pat)
    requires StartsWith(rest, pat)
    ensures FindFrom(a + rest, pat, 0) == |a|
  {
    var t := a + rest;
    forall j | 0 <= j < |a| ensures !StartsAt(t, j, pat) {
      NoStartInPrefix(a, rest, pat, j);
    }
    assert t[|a|..|a| + |pat|] == rest[..|pat|];
    assert StartsAt(t, |a|, pat);
    FindSkip(t, pat, 0, |a|);
    assert FindFrom(t, pat, |a|) == |a|;
  }

  // ---------------------------------------------------------------- scanning inside a piece

  /** Skipping whitespace inside a piece of a larger text. */
  lemma {:induction false} SkipSpaceIn(t: string, s: nat, m: string, i: nat)
    requires StartsAt(t, s, m) && i <= |m| && SkipSpace(m, i) < |m|
    ensures SkipSpace(t, s + i) == s + SkipSpace(m, i)
    decreases |m| - i
  {
    assert t[s..s + |m|][i] == t[s + i];
    if IsSpace(m[i]) {
      SkipSpaceIn(t, s, m, i + 1);
    }
  }

  /** Finding the end of a line inside a piece of a larger text. */
  lemma {:induction false} LineEndIn(t: string, s: nat, m: string, i: nat)
    requires StartsAt(t, s, m) && i <= |m| && LineEnd(m, i) < |m|
    ensures LineEnd(t, s + i) == s + LineEnd(m, i)
    decreases |m| - i
  {
    assert t[s..s + |m|][i] == t[s + i];
    if m[i] != '\n' {
      LineEndIn(t, s, m, i + 1);
    }
  }

  /** `lstrip` drops exactly the whitespace run `SkipSpace` passes over. */
  lemma LStripSkip(v: string)
    ensures LStrip(v) == v[SkipSpace(v, 0)..]
  {
    var l, k := LStrip(v), SkipSpace(v, 0);
    assert l == [] || l[0] == v[|v| - |l|];
    assert |v| - |l| == k;
  }

  /** Cleaning ignores leading whitespace. */
  lemma CleanWsLStrip(v: string)
    ensures CleanWs(LStrip(v)) == CleanWs(v)
  {
    LStripIdempotent(v);
  }

  // ---------------------------------------------------------------- the pieces of a section

  /** The `**name**:` key the parser searches for. */
  function Marker(name: string): string { "**" + name + "**:" }

  /** A header name: ASCII letters only. */
  predicate Word(w: string) { w != [] && forall i :: 0 <= i < |w| ==> IsAsciiLetter(w[i]) }

  /** Every character of a header line is a star, a letter, `:`, a space, a line break or a
      character of the value. */
  lemma HeaderLineChars(name: string, v: string, c: char)
    requires Word(name) && c !in v && !IsAsciiLetter(c) && c != '*' && c != ':' && c != ' ' && c != '\n'
    ensures c !in HeaderLine(name, v)
  {
    var m := HeaderLine(name, v);
    forall i | 0 <= i < |m| ensures m[i] != c {
      if 2 <= i < 2 + |name| {
        assert m[i] == name[i - 2];
      } else if 6 + |name| <= i < 6 + |name| + |v| {
        assert m[i] == v[i - 6 - |name|];
      }
    }
  }

  /** A header line holds no key of another header whose name starts with another letter. */
  lemma HeaderLineAbsent(name: string, other: string, v: string)
    requires Word(name) && Word(other) && name[0] != other[0] && '*' !in v
    ensures Absent(HeaderLine(name, v), Marker(other))
  {
    var m, key := HeaderLine(name, v), Marker(other);
    var n := |name|;
    assert key[0] == '*' && key[1] == '*' && key[2] == other[0];
    forall j ensures !StartsAt(m, j, key) {
      if 0 <= j && j + |key| <= |m| {
        var w := m[j..j + |key|];
        assert w[0] == m[j] && w[1] == m[j + 1] && w[2] == m[j + 2];
        if j == 0 || j == 1 {
          assert m[2] == name[0];
        } else if j < 2 + n {
          assert m[j] == name[j - 2];
        } else if j == 2 + n || j == 3 + n {
          assert m[4 + n] == ':';
        } else if 6 + n <= j < 6 + n + |v| {
          assert m[j] == v[j - 6 - n];
        }
      }
    }
  }

  /** The heading `## Email N` holds no `### Content`. */
  lemma HeadingAbsent(idx: nat)
    ensures Absent(Heading(idx), "### Content")
  {
    var h, key := Heading(idx), "### Content";
    assert h == "## Email " + Decimal(idx) + "\n\n";
    forall j ensures !StartsAt(h, j, key) {
      if 0 <= j && j + |key| <= |h| {
        var w := h[j..j + |key|];
        assert w[0] == h[j] && w[2] == h[j + 2];
        if j >= 9 && j < 9 + |Decimal(idx)| {
          assert h[j] == Decimal(idx)[j - 9];
        }
      }
    }
  }

  /** A character in front of a text creates no occurrence when the pattern does not start
      with it. */
  lemma AbsentCons(c: char, v: string, pat: string)
    requires pat != [] && pat[0] != c && Absent(v, pat)
    ensures Absent([c] + v, pat)
  {
    var t := [c] + v;
    forall j ensures !StartsAt(t, j, pat) {
      if 0 <= j && j + |pat| <= |t| {
        if j == 0 {
          assert t[j..j + |pat|][0] == c;
        } else {
          assert t[j..j + |pat|] == v[j - 1..j - 1 + |pat|];
          assert !StartsAt(v, j - 1, pat);
        }
      }
    }
  }

  /** A prefix of a text without occurrences has none. */
  lemma AbsentPrefix(a: string, b: string, pat: string)
    requires Absent(a + b, pat)
    ensures Absent(a, pat)
  {
    forall j ensures !StartsAt(a, j, pat) {
      if 0 <= j && j + |pat| <= |a| {
        assert (a + b)[j..j + |pat|] == a[j..j + |pat|];
        assert !StartsAt(a + b, j, pat);
      }
    }
  }

  /** A header line holds no occurrence of a key that its fixed part holds none of, that its
      value holds none of, and that cannot straddle `: ` or run into the line break. */
  lemma HeaderLineKeyAbsent(name: string, v: string, key: string)
    requires key != [] && key[0] != ' ' && '\n' !in key && (':' !in key || ' ' !in key)
    requires Absent(HeaderLine(name, ""), key) && Absent(v, key)
    ensures Absent(HeaderLine(name, v), key)
  {
    var p := "**" + name + "**:";
    assert HeaderLine(name, "") == p + (" " + "\n\n");
    AbsentPrefix(p, " " + "\n\n", key);
    AbsentCons(' ', v, key);
    assert p[|p| - 1] == ':';
    AbsentAppend(p, [' '] + v, key);
    assert key[0] in key;
    AbsentChar("\n\n", key);
    AbsentAppend(p + ([' '] + v), "\n\n", key);
    assert HeaderLine(name, v) == p + ([' '] + v) + "\n\n";
  }

  /** A header line holds no key of another header, whose name starts with another letter,
      when its value holds none. */
  lemma MarkerLineAbsent(name: string, other: string, v: string)
    requires Word(name) && Word(other) && name[0] != other[0] && Absent(v, Marker(other))
    ensures Absent(HeaderLine(name, v), Marker(other))
  {
    var key := Marker(other);
    HeaderLineAbsent(name, other, "");
    forall i | 0 <= i < |key| ensures key[i] != ' ' && key[i] != '\n' {
      if 2 <= i < 2 + |other| {
        assert key[i] == other[i - 2];
      }
    }
    HeaderLineKeyAbsent(name, v, key);
  }

  /** A header line holds no `### Content` when its value holds none. */
  lemma ContentLineAbsent(name: string, v: string)
    requires Word(name) && Absent(v, "### Content")
    ensures Absent(HeaderLine(name, v), "### Content")
  {
    HeaderLineChars(name, "", '#');
    AbsentChar(HeaderLine(name, ""), "### Content");
    HeaderLineKeyAbsent(name, v, "### Content");
  }

  // ---------------------------------------------------------------- reading one field back

  /** The line of a value that holds no line break ends at the break that follows it. */
  lemma {:induction false} LineEndBreak(v: string, k: nat)
    requires k <= |v| && '\n' !in v
    ensures LineEnd(v + "\n", k) == |v|
    decreases |v| - k
  {
    var m := v + "\n";
    if k < |v| {
      assert m[k] == v[k];
      LineEndBreak(v, k + 1);
    } else {
      assert m[k] == '\n';
    }
  }

  /** Whitespace skipped in a value is skipped the same way when a line break follows it. */
  lemma SkipSpaceBreak(v: string)
    requires SkipSpace(v, 0) < |v|
    ensures SkipSpace(v + "\n", 0) == SkipSpace(v, 0)
  {
    assert (v + "\n")[..|v|] == v;
    SkipSpaceIn(v + "\n", 0, v, 0);
  }

  /** The value of a line after a space: `\s*(.+)` matches the value without its leading
      whitespace, up to the line break that ends it. */
  lemma ValueAt(t: string, c: nat, s: nat, v: string)
    requires s == c + 1 && StartsAt(t, s, v + "\n") && t[c] == ' '
    requires SkipSpace(v, 0) < |v| && '\n' !in v
    ensures LineAfter(t, c) == Some(LStrip(v))
  {
    var k := SkipSpace(v, 0);
    ValueStart(t, c, s, v);
    ValueEnd(t, s, v, k);
    LineAfterPiece(t, c, s, v, k);
    BreakDropped(v, k);
  }

  /** The value's first character that is not whitespace is where `\s*` stops. */
  lemma ValueStart(t: string, c: nat, s: nat, v: string)
    requires s == c + 1 && StartsAt(t, s, v + "\n") && t[c] == ' ' && SkipSpace(v, 0) < |v|
    ensures SkipSpace(t, c) == s + SkipSpace(v, 0)
  {
    SkipSpaceBreak(v);
    SkipSpaceIn(t, s, v + "\n", 0);
  }

  /** The value's line ends at the line break written after it. */
  lemma ValueEnd(t: string, s: nat, v: string, k: nat)
    requires StartsAt(t, s, v + "\n") && k <= |v| && '\n' !in v
    ensures LineEnd(t, s + k) == s + |v|
  {
    LineEndBreak(v, k);
    LineEndIn(t, s, v + "\n", k);
  }

  /** A stretch of a piece is the same stretch of the text the piece sits in. */
  lemma SliceOfPiece(t: string, s: nat, m: string, x: nat, y: nat)
    requires StartsAt(t, s, m) && x <= y <= |m|
    ensures t[s + x..s + y] == m[x..y]
  {
    forall i | 0 <= i < y - x ensures t[s + x..s + y][i] == m[x..y][i] {
      assert t[s..s + |m|][x + i] == t[s + x + i];
    }
  }

  /** The line read after the space in front of a piece `v + "\n"`, once its start and end are
      known. */
  lemma LineAfterPiece(t: string, c: nat, s: nat, v: string, k: nat)
    requires s == c + 1 && StartsAt(t, s, v + "\n") && k < |v|
    requires SkipSpace(t, c) == s + k && LineEnd(t, s + k) == s + |v|
    ensures LineAfter(t, c) == Some((v + "\n")[k..|v|])
  {
    SliceOfPiece(t, s, v + "\n", k, |v|);
  }

  /** The value after its leading whitespace, without the line break that follows it. */
  lemma BreakDropped(v: string, k: nat)
    requires k == SkipSpace(v, 0)
    ensures (v + "\n")[k..|v|] == LStrip(v)
  {
    LStripSkip(v);
    assert (v + "\n")[k..|v|] == v[k..];
  }

  /** A header line read back by the `\*\*Key\*\*:\s*(.+)` search: the first occurrence of the
      key is this line's, and the value, without its leading whitespace, is what follows. */
  lemma LineFieldAt(a: string, name: string, v: string, more: string)
    requires Word(name) && Absent(a, Marker(name)) && (a == [] || a[|a| - 1] == '\n')
    requires SkipSpace(v, 0) < |v| && '\n' !in v
    ensures LineField(a + HeaderLine(name, v) + more, Marker(name), 0) == Some(LStrip(v))
  {
    FindAfter(a, HeaderLine(name, v) + more, Marker(name));
    assert a + (HeaderLine(name, v) + more) == a + HeaderLine(name, v) + more;
    LineAfterAt(a, name, v, more);
    KeyFound(a + HeaderLine(name, v) + more, Marker(name), |a|, LStrip(v));
  }

  /** In a text that holds a header line after `a`, the line read after the line's key is the
      value without its leading whitespace. */
  lemma LineAfterAt(a: string, name: string, v: string, more: string)
    requires SkipSpace(v, 0) < |v| && '\n' !in v
    ensures |a| + |Marker(name)| <= |a + HeaderLine(name, v) + more|
    ensures LineAtKey(a + HeaderLine(name, v) + more, Marker(name), |a|) == Some(LStrip(v))
  {
    PieceAt(a, HeaderLine(name, v), more);
    SpaceThenValue(a + HeaderLine(name, v) + more, |a|, |a| + |Marker(name)|, name, v);
    KeyValue(a + HeaderLine(name, v) + more, Marker(name), |a|, v);
  }

  /** An occurrence of the key followed by a space and a value on its own line yields the
      value without its leading whitespace. */
  lemma KeyValue(t: string, key: string, p: nat, v: string)
    requires |key| > 0 && p + |key| < |t| && t[p + |key|] == ' '
    requires StartsAt(t, p + |key| + 1, v + "\n") && SkipSpace(v, 0) < |v| && '\n' !in v
    ensures LineAtKey(t, key, p) == Some(LStrip(v))
  {
    ValueAt(t, p + |key|, p + |key| + 1, v);
  }

  /** The search reads the line after the first occurrence of the key when there is one. */
  lemma KeyFound(t: string, key: string, p: nat, w: string)
    requires |key| > 0 && FindFrom(t, key, 0) == p && p + |key| <= |t| && LineAtKey(t, key, p) == Some(w)
    ensures LineField(t, key, 0) == Some(w)
  {
  }

  /** The middle piece of a text made of three pieces starts right after the first. */
  lemma PieceAt(a: string, m: string, more: string)
    ensures StartsAt(a + m + more, |a|, m)
  {
    assert (a + m + more)[|a|..|a| + |m|] == m;
  }

  /** A piece of a piece of a text is a piece of the text. */
  lemma PieceOfPiece(t: string, p: nat, m: string, x: nat, y: nat)
    requires StartsAt(t, p, m) && x <= y <= |m|
    ensures StartsAt(t, p + x, m[x..y])
  {
    SliceOfPiece(t, p, m, x, y);
  }

  /** Where the value of a header line sits in the line: after the key and a space. */
  lemma HeaderLineParts(name: string, v: string)
    ensures |Marker(name)| + 2 + |v| <= |HeaderLine(name, v)|
    ensures HeaderLine(name, v)[|Marker(name)|] == ' '
    ensures HeaderLine(name, v)[|Marker(name)| + 1..|Marker(name)| + 2 + |v|] == v + "\n"
  {
    var m := HeaderLine(name, v);
    assert m == (Marker(name) + " ") + (v + "\n") + "\n";
  }

  /** A character of a piece is the same character of the text the piece sits in. */
  lemma CharOfPiece(t: string, p: nat, m: string, x: nat)
    requires StartsAt(t, p, m) && x < |m|
    ensures p + x < |t| && t[p + x] == m[x]
  {
    assert t[p..p + |m|][x] == t[p + x];
  }

  /** A header line holds a space after the key, and then the value and a line break. */
  lemma SpaceThenValue(t: string, p: nat, c: nat, name: string, v: string)
    requires StartsAt(t, p, HeaderLine(name, v)) && c == p + |Marker(name)|
    ensures StartsAt(t, c + 1, v + "\n") && c < |t| && t[c] == ' '
  {
    HeaderLineParts(name, v);
    PieceOfPiece(t, p, HeaderLine(name, v), |Marker(name)| + 1, |Marker(name)| + 2 + |v|);
    CharOfPiece(t, p, HeaderLine(name, v), |Marker(name)|);
  }

  /** The key of a header line that is missing from the whole text is not found. */
  lemma LineFieldAbsent(t: string, key: string)
    requires key != [] && Absent(t, key)
    ensures LineField(t, key, 0) == None
  {
  }

  /** Without its heading the content is not found. */
  lemma ContentFieldAbsent(t: string)
    requires Absent(t, "### Content")
    ensures ContentField(t, 0) == None
  {
  }

  /** A chunk with no `*` and no `C` holds none of the date, sender, subject and content
      keys, so `parse_emails` skips it. */
  lemma FieldlessChunk(strptime: string -> Option<DateTime>, chunk: string)
    requires '*' !in chunk && 'C' !in chunk
    ensures ParseChunk(strptime, chunk).None?
  {
    AbsentChar(chunk, "**Date**:");
    AbsentChar(chunk, "**From**:");
    AbsentChar(chunk, "**Subject**:");
    AbsentCharAt(chunk, "### Content", 4);
    LineFieldAbsent(chunk, "**Date**:");
    LineFieldAbsent(chunk, "**From**:");
    LineFieldAbsent(chunk, "**Subject**:");
    ContentFieldAbsent(chunk);
  }

  /** The document's title, the chunk in front of the first `## Email` header, is dropped. */
  lemma PreambleDropped(strptime: string -> Option<DateTime>)
    ensures ParseChunk(strptime, "# Email Thread\n\n").None?
  {
    FieldlessChunk(strptime, "# Email Thread\n\n");
  }

  // ---------------------------------------------------------------- the content

  /** `lazy` stops at the first end that the look-ahead accepts. */
  lemma {:induction false} LazyEndAt(t: string, e: nat, stops: seq<string>, r: nat)
    requires e <= r <= |t| && StopAt(t, r, stops)
    requires forall k :: e <= k < r ==> !StopAt(t, k, stops)
    ensures LazyEnd(t, e, stops) == r
    decreases r - e
  {
    if e < r {
      LazyEndAt(t, e + 1, stops, r);
    }
  }

  /** The three look-aheads of the content pattern. */
  lemma ContentStopsAt(t: string, e: nat)
    ensures AnyStartsAt(t, e, ContentStops)
            <==> StartsAt(t, e, "\n---") || StartsAt(t, e, "\n## ") || StartsAt(t, e, "\n### Attachments")
  {
    var s0 := ContentStops;
    var s1 := ["\n## ", "\n### Attachments"];
    var s2 := ["\n### Attachments"];
    assert s0[1..] == s1 && s1[1..] == s2 && s2[1..] == [];
    assert AnyStartsAt(t, e, s0) == (StartsAt(t, e, "\n---") || AnyStartsAt(t, e, s1));
    assert AnyStartsAt(t, e, s1) == (StartsAt(t, e, "\n## ") || AnyStartsAt(t, e, s2));
    assert AnyStartsAt(t, e, s2) == (StartsAt(t, e, "\n### Attachments") || AnyStartsAt(t, e, []));
  }

  /** A stretch of the text inside a piece is the matching stretch of the piece. */
  lemma PieceSlice(t: string, s: nat, m: string, i: nat, j: nat)
    requires StartsAt(t, s, m) && s <= i <= j <= s + |m|
    ensures t[i..j] == m[i - s..j - s]
  {
    forall q | 0 <= q < j - i ensures t[i..j][q] == m[i - s..j - s][q] {
      assert t[s..s + |m|][i - s + q] == t[i + q];
    }
  }

  /** A body holds no occurrence of `stop` starting at `q`. */
  lemma NotContainedAt(body: string, stop: string, q: nat)
    requires !Contains(body, stop) && q + |stop| <= |body|
    ensures body[q..q + |stop|] != stop
  {
    ContainsFromIff(body, stop, 0);
    assert !StartsAt(body, q, stop);
  }

  /** A stop pattern, a line break followed by characters that are not, does not start
      inside a body without it that is followed by a blank line, nor at the body's end. */
  lemma StopNotAt(t: string, sb: nat, body: string, stop: string, k: nat)
    requires StartsAt(t, sb, body) && sb + |body| + 2 <= |t|
    requires t[sb + |body|] == '\n' && t[sb + |body| + 1] == '\n' && sb < k <= sb + |body|
    requires |stop| >= 2 && stop[0] == '\n' && '\n' !in stop[1..] && !Contains(body, stop)
    ensures !StartsAt(t, k, stop)
  {
    var eb := sb + |body|;
    if k + |stop| <= |t| {
      if k + |stop| <= eb {
        PieceSlice(t, sb, body, k, k + |stop|);
        NotContainedAt(body, stop, k - sb);
      } else if k < eb {
        assert t[k..k + |stop|][eb - k] == t[eb];
        assert stop[1..][eb - k - 1] == stop[eb - k];
      } else {
        assert t[k..k + |stop|][1] == t[eb + 1];
        assert stop[1..][0] == stop[1];
      }
    }
  }

  /** No line of the body starts with `---`, `## ` or `### Attachments`. */
  predicate NoStopLine(body: string) {
    !Contains(body, "\n---") && !Contains(body, "\n## ") && !Contains(body, "\n### Attachments")
  }

  /** Inside a body without stop lines, and at its end, the content's look-ahead fails. */
  lemma NoStopAt(t: string, sb: nat, body: string, k: nat)
    requires StartsAt(t, sb, body) && sb + |body| + 3 <= |t|
    requires t[sb + |body|] == '\n' && t[sb + |body| + 1] == '\n' && sb < k <= sb + |body|
    requires NoStopLine(body)
    ensures !StopAt(t, k, ContentStops)
  {
    ContentStopsAt(t, k);
    StopNotAt(t, sb, body, "\n---", k);
    StopNotAt(t, sb, body, "\n## ", k);
    StopNotAt(t, sb, body, "\n### Attachments", k);
  }

  /** A line break followed by `pat` is `"\n" + pat`. */
  lemma BreakThen(t: string, i: nat, pat: string)
    requires i < |t| && t[i] == '\n' && StartsAt(t, i + 1, pat)
    ensures StartsAt(t, i, "\n" + pat)
  {
    assert t[i..i + 1 + |pat|] == [t[i]] + t[i + 1..i + 1 + |pat|];
  }

  /** The closing rule and the attachments heading each stop the content. */
  lemma TailStops(t: string, e: nat)
    requires e < |t| && t[e] == '\n'
    requires StartsAt(t, e + 1, "---") || StartsAt(t, e + 1, "### Attachments")
    ensures StopAt(t, e, ContentStops)
  {
    ContentStopsAt(t, e);
    if StartsAt(t, e + 1, "---") {
      BreakThen(t, e, "---");
      assert "\n" + "---" == "\n---";
    } else {
      BreakThen(t, e, "### Attachments");
      assert "\n" + "### Attachments" == "\n### Attachments";
    }
  }

  /** The lazy content group ends at the line break after the body's last character: the
      next line is the closing rule or the attachments heading. */
  lemma ContentEnd(t: string, sb: nat, s1: nat, body: string)
    requires s1 == sb + 1 && StartsAt(t, sb, body) && NoStopLine(body) && sb + |body| + 3 <= |t|
    requires t[sb + |body|] == '\n' && t[sb + |body| + 1] == '\n'
    requires StartsAt(t, sb + |body| + 2, "---") || StartsAt(t, sb + |body| + 2, "### Attachments")
    ensures LazyEnd(t, s1, ContentStops) == sb + |body| + 1
  {
    forall k | s1 <= k < sb + |body| + 1 ensures !StopAt(t, k, ContentStops) {
      NoStopAt(t, sb, body, k);
    }
    TailStops(t, sb + |body| + 1);
    LazyEndAt(t, s1, ContentStops, sb + |body| + 1);
  }

  /** Where the pieces of the content block sit in a text that holds it after `a`. */
  lemma ContentPieces(a: string, body: string, tail: string)
    requires StartsWith(tail, "---") || StartsWith(tail, "### Attachments")
    ensures StartsAt(a + "### Content\n\n" + body + "\n\n" + tail, |a| + 13, body)
    ensures |a| + 13 + |body| + 3 <= |a + "### Content\n\n" + body + "\n\n" + tail|
    ensures (a + "### Content\n\n" + body + "\n\n" + tail)[|a| + 11] == '\n'
    ensures (a + "### Content\n\n" + body + "\n\n" + tail)[|a| + 12] == '\n'
    ensures (a + "### Content\n\n" + body + "\n\n" + tail)[|a| + 13 + |body|] == '\n'
    ensures (a + "### Content\n\n" + body + "\n\n" + tail)[|a| + 13 + |body| + 1] == '\n'
    ensures StartsAt(a + "### Content\n\n" + body + "\n\n" + tail, |a| + 13 + |body| + 2, "---")
            || StartsAt(a + "### Content\n\n" + body + "\n\n" + tail, |a| + 13 + |body| + 2, "### Attachments")
  {
    var t := a + "### Content\n\n" + body + "\n\n" + tail;
    var sb := |a| + 13;
    assert t == (a + "### Content\n\n") + body + ("\n\n" + tail);
    PieceAt(a + "### Content\n\n", body, "\n\n" + tail);
    assert t[sb + |body| + 2..] == tail;
    if StartsWith(tail, "---") {
      assert t[sb + |body| + 2..sb + |body| + 5] == tail[..3];
    } else {
      assert t[sb + |body| + 2..sb + |body| + 17] == tail[..15];
    }
  }

  /** The content group read at a heading whose body starts right after a blank line. */
  lemma ContentRead(t: string, p: nat, body: string)
    requires StartsAt(t, p + 13, body) && NoStopLine(body) && p + 13 + |body| + 3 <= |t|
    requires body != [] && !IsSpace(body[0])
    requires t[p + 11] == '\n' && t[p + 12] == '\n'
    requires t[p + 13 + |body|] == '\n' && t[p + 13 + |body| + 1] == '\n'
    requires StartsAt(t, p + 13 + |body| + 2, "---") || StartsAt(t, p + 13 + |body| + 2, "### Attachments")
    ensures ContentAfterHeading(t, p) == Some(body + "\n")
  {
    ContentBody(t, p, body);
    ContentFieldFound(t, p, p + 12, p + 13 + |body| + 1, body + "\n");
  }

  /** Where the content group starts and ends when the body follows a blank line. */
  lemma ContentBody(t: string, p: nat, body: string)
    requires StartsAt(t, p + 13, body) && NoStopLine(body) && p + 13 + |body| + 3 <= |t|
    requires body != [] && !IsSpace(body[0])
    requires t[p + 11] == '\n' && t[p + 12] == '\n'
    requires t[p + 13 + |body|] == '\n' && t[p + 13 + |body| + 1] == '\n'
    requires StartsAt(t, p + 13 + |body| + 2, "---") || StartsAt(t, p + 13 + |body| + 2, "### Attachments")
    ensures LastNewline(t, p + 11, SkipSpace(t, p + 11)) == Some(p + 12)
    ensures LazyEnd(t, p + 12 + 2, ContentStops) == p + 13 + |body| + 1
    ensures t[p + 12 + 1..p + 13 + |body| + 1] == body + "\n"
  {
    ContentStart(t, p, body);
    ContentEnd(t, p + 13, p + 12 + 2, body);
    BodyLine(t, p + 13, p + 12 + 1, body);
  }

  /** The content group at the first heading, once the line break before the group and the
      group's end are known. */
  lemma ContentFieldFound(t: string, p: nat, x: nat, e: nat, v: string)
    requires p + 11 <= |t|
    requires LastNewline(t, p + 11, SkipSpace(t, p + 11)) == Some(x)
    requires LazyEnd(t, x + 2, ContentStops) == e && t[x + 1..e] == v
    ensures ContentAfterHeading(t, p) == Some(v)
  {
    assert ContentGroup(t, x) == v;
  }

  /** The content pattern reads the group after the first heading. */
  lemma ContentFromHeading(t: string, p: nat, v: string)
    requires FindFrom(t, "### Content", 0) == p && p + 11 <= |t| && ContentAfterHeading(t, p) == Some(v)
    ensures ContentField(t, 0) == Some(v)
  {
  }

  /** The whitespace after the heading is the blank line, and its last line break is the
      one right before the body. */
  lemma ContentStart(t: string, p: nat, body: string)
    requires StartsAt(t, p + 13, body) && body != [] && !IsSpace(body[0])
    requires t[p + 11] == '\n' && t[p + 12] == '\n'
    ensures SkipSpace(t, p + 11) == p + 13 && LastNewline(t, p + 11, p + 13) == Some(p + 12)
  {
    assert t[p + 13] == body[0] by { PieceSlice(t, p + 13, body, p + 13, p + 14); }
  }

  /** The body and the line break after it. */
  lemma BodyLine(t: string, sb: nat, s0: nat, body: string)
    requires s0 == sb && StartsAt(t, sb, body) && sb + |body| < |t| && t[sb + |body|] == '\n'
    ensures t[s0..sb + |body| + 1] == body + "\n"
  {
    PieceSlice(t, sb, body, sb, sb + |body|);
    assert t[sb..sb + |body| + 1] == t[sb..sb + |body|] + [t[sb + |body|]];
  }

  /** The content group, read back: everything from the body's first character up to the
      line break that precedes the attachments block or the closing rule. */
  lemma ContentFieldAt(a: string, body: string, tail: string)
    requires Absent(a, "### Content") && (a == [] || a[|a| - 1] == '\n')
    requires body != [] && !IsSpace(body[0]) && NoStopLine(body)
    requires StartsWith(tail, "---") || StartsWith(tail, "### Attachments")
    ensures ContentField(a + "### Content\n\n" + body + "\n\n" + tail, 0) == Some(body + "\n")
  {
    FindAfter(a, "### Content\n\n" + body + "\n\n" + tail, "### Content");
    assert a + ("### Content\n\n" + body + "\n\n" + tail) == a + "### Content\n\n" + body + "\n\n" + tail;
    ContentAfterAt(a, body, tail);
    ContentFromHeading(a + "### Content\n\n" + body + "\n\n" + tail, |a|, body + "\n");
  }

  /** In a text that holds the content block after `a`, the group after the block's heading
      is the body and its line break. */
  lemma ContentAfterAt(a: string, body: string, tail: string)
    requires body != [] && !IsSpace(body[0]) && NoStopLine(body)
    requires StartsWith(tail, "---") || StartsWith(tail, "### Attachments")
    ensures |a| + 11 <= |a + "### Content\n\n" + body + "\n\n" + tail|
    ensures ContentAfterHeading(a + "### Content\n\n" + body + "\n\n" + tail, |a|) == Some(body + "\n")
  {
    ContentPieces(a, body, tail);
    ContentRead(a + "### Content\n\n" + body + "\n\n" + tail, |a|, body);
  }

  // ---------------------------------------------------------------- the timestamp line

  /** A timestamp written to the second is already clean: one space, between date and time. */
  lemma StampClean(d: DateTime)
    ensures Clean(FormatSeconds(d)) && '\n' !in FormatSeconds(d) && '*' !in FormatSeconds(d)
    ensures '#' !in FormatSeconds(d) && SkipSpace(FormatSeconds(d), 0) == 0 && FormatSeconds(d) != []
  {
    FormatShape(d);
    var date, time, sec := DatePart(d), TimePart(d), Pad2(d.second as nat);
    var rest := time + ":" + sec;
    var s := FormatSeconds(d);
    assert s == date + " " + rest;
    StampAppend(time, ":");
    DigitsStamp(sec);
    StampAppend(time + ":", sec);
    assert rest[0] == Pad2(d.hour as nat)[0];
    assert forall i :: 0 <= i < |s| ==> StampChar(s[i]);
    assert ' ' !in rest;
    assert forall i :: 0 <= i < |date| ==> s[i] == date[i];
    assert forall i :: |date| < i < |s| ==> s[i] == rest[i - |date| - 1];
    assert s[|date| + 1] == rest[0];
  }

  // ---------------------------------------------------------------- a whole section

  /** What a record needs for its section to read back:
      - a sender and a subject that are single lines and not blank;
      - no header value that holds a key a later search would stop at first: `### Content`
        in any of them, `**Subject**:` in the sender, To or CC, and, for an undated record,
        `**Date**:` in any of them;
      - a body that is not blank and holds no line the content pattern or the quoted history
        cut stops at;
      - for an undated record, no `**Date**:` in the body or an attachment name. */
  predicate Readable(r: EmailRecord) {
    && SkipSpace(r.from, 0) < |r.from| && '\n' !in r.from
    && SkipSpace(r.subject, 0) < |r.subject| && '\n' !in r.subject
    && BeforeSubject(r.from) && BeforeSubject(r.to) && BeforeSubject(r.cc)
    && !Contains(r.subject, "### Content")
    && Strip(r.body) != [] && NoStopLine(Strip(r.body))
    && NoSepLine(Strip(r.body)) && !Contains(Strip(r.body), Token)
    && (r.date.None? ==> UndatedReadable(r))
  }

  /** A subject may hold `#` and `*`: "Re: ticket #42" from "Ann *" reads back. */
  lemma HashSubjectReadable()
    ensures Readable(EmailRecord(None, "Ann *", "", "", "Re: ticket #42", "hi", []))
  {
    LetterFreeReadable("Ann *", "Re: ticket #42", "hi");
  }

  /**
   * An undated one-line record without attachments reads back when the sender
   * lacks an `S`, a `C` and a `D`, and the subject a `C` and a `D`: each key
   * then has a letter missing from the value, whatever `#` or `*` it holds.
   */
  lemma LetterFreeReadable(from: string, subject: string, body: string)
    requires from != [] && !IsSpace(from[0]) && '\n' !in from
    requires 'S' !in from && 'C' !in from && 'D' !in from
    requires subject != [] && !IsSpace(subject[0]) && '\n' !in subject
    requires 'C' !in subject && 'D' !in subject
    requires body != [] && forall i :: 0 <= i < |body| ==> IsAsciiLetter(body[i])
    ensures Readable(EmailRecord(None, from, "", "", subject, body, []))
  {
    PlainBody(body);
    AbsentCharAt(subject, "### Content", 4);
    AbsentContains(subject, "### Content");
    AbsentCharAt(subject, "**Date**:", 2);
    AbsentContains(subject, "**Date**:");
    AbsentCharAt(from, "**Subject**:", 2);
    AbsentContains(from, "**Subject**:");
    AbsentCharAt(from, "### Content", 4);
    AbsentContains(from, "### Content");
    AbsentCharAt(from, "**Date**:", 2);
    AbsentContains(from, "**Date**:");
    EmptyReadable();
  }

  /** An empty header value holds no key. */
  lemma EmptyReadable()
    ensures BeforeSubject("") && !Contains("", "**Date**:")
  {
    AbsentChar("", "**Subject**:");
    AbsentContains("", "**Subject**:");
    AbsentChar("", "### Content");
    AbsentContains("", "### Content");
    AbsentChar("", "**Date**:");
    AbsentContains("", "**Date**:");
  }

  /** A one-line body of letters is readable as it stands. */
  lemma PlainBody(b: string)
    requires b != [] && forall i :: 0 <= i < |b| ==> IsAsciiLetter(b[i])
    ensures Strip(b) == b && NoStopLine(b) && NoSepLine(b)
    ensures !Contains(b, Token) && !Contains(b, "**Date**:")
  {
    assert !IsSpace(b[0]) && !IsSpace(b[|b| - 1]);
    StripNoop(b);
    assert '\n' !in b && '_' !in b && '*' !in b;
    AbsentChar(b, "\n---");
    AbsentContains(b, "\n---");
    AbsentChar(b, "\n## ");
    AbsentContains(b, "\n## ");
    AbsentChar(b, "\n### Attachments");
    AbsentContains(b, "\n### Attachments");
    AbsentChar(b, Token);
    AbsentContains(b, Token);
    AbsentChar(b, "**Date**:");
    AbsentContains(b, "**Date**:");
    forall p | 0 <= p <= |b| ensures !SepLineAt(b, p) {
      if p + 6 <= |b| {
        assert b[p] != '_';
      }
    }
  }

  /** A text with no occurrence at any position does not contain the pattern. */
  lemma AbsentContains(s: string, pat: string)
    requires Absent(s, pat)
    ensures !Contains(s, pat)
  {
    ContainsFromIff(s, pat, 0);
  }

  /** A header value written before the subject line holds neither key searched after it. */
  predicate BeforeSubject(v: string) {
    !Contains(v, "**Subject**:") && !Contains(v, "### Content")
  }

  /** No `**Date**:` anywhere in an undated record's section. */
  predicate UndatedReadable(r: EmailRecord) {
    && !Contains(r.from, "**Date**:") && !Contains(r.to, "**Date**:") && !Contains(r.cc, "**Date**:")
    && !Contains(r.subject, "**Date**:") && !Contains(Strip(r.body), "**Date**:")
    && forall i :: 0 <= i < |r.attachments| ==> !Contains(r.attachments[i].filename, "**Date**:")
  }


  /** The names of the headers a section writes. */
  lemma Names()
    ensures Word("Date") && Word("From") && Word("To") && Word("CC") && Word("Subject")
  {
  }

  /** The keys the parser searches for are the header names the converter writes. */
  lemma Keys()
    ensures Marker("Date") == "**Date**:" && Marker("From") == "**From**:"
    ensures Marker("Subject") == "**Subject**:"
  {
  }

  /** The heading of a section starts with `#`, ends with a line break and holds no `*`. */
  lemma HeadingChars(idx: nat)
    ensures |Heading(idx)| >= 11 && Heading(idx)[0] == '#' && Heading(idx)[|Heading(idx)| - 1] == '\n'
    ensures '*' !in Heading(idx)
  {
    var h, dn := Heading(idx), Decimal(idx);
    assert h == "## Email " + dn + "\n\n";
    forall i | 0 <= i < |h| ensures h[i] != '*' {
      if 9 <= i < 9 + |dn| {
        assert h[i] == dn[i - 9];
      }
    }
  }

  /** A header line starts with `*` and ends with a line break. */
  lemma HeaderLineEnds(name: string, v: string)
    ensures |HeaderLine(name, v)| >= 6 && HeaderLine(name, v)[0] == '*'
    ensures HeaderLine(name, v)[|HeaderLine(name, v)| - 1] == '\n'
  {
  }

  /** A section is its pieces, written one after the other. */
  lemma SectionPieces(r: EmailRecord, idx: nat)
    ensures Section(r, idx)
            == Heading(idx) + DateLine(r) + HeaderLine("From", r.from) + HeaderLine("To", r.to) + CcLine(r)
               + HeaderLine("Subject", r.subject) + "### Content\n\n" + Strip(r.body) + "\n\n"
               + AttachmentBlock(r.attachments) + "---\n\n"
  {
  }

  /** The groupings of a section's eleven pieces that the searches need: around the sender's
      line, the subject's line, the date line, the content block, and after the heading. */
  lemma RegroupFrom(h: string, d: string, f: string, o: string, c: string, s: string, k: string,
                    b: string, n: string, x: string, e: string)
    ensures h + d + f + o + c + s + k + b + n + x + e == (h + d) + f + (o + c + s + k + b + n + x + e)
  {
  }

  lemma RegroupSubject(h: string, d: string, f: string, o: string, c: string, s: string, k: string,
                    b: string, n: string, x: string, e: string)
    ensures h + d + f + o + c + s + k + b + n + x + e == (h + d + f + o + c) + s + (k + b + n + x + e)
  {
  }

  lemma RegroupDate(h: string, d: string, f: string, o: string, c: string, s: string, k: string,
                    b: string, n: string, x: string, e: string)
    ensures h + d + f + o + c + s + k + b + n + x + e == h + d + (f + o + c + s + k + b + n + x + e)
  {
  }

  lemma RegroupContent(h: string, d: string, f: string, o: string, c: string, s: string, k: string,
                    b: string, n: string, x: string, e: string)
    ensures h + d + f + o + c + s + k + b + n + x + e == (h + d + f + o + c + s) + k + b + n + (x + e)
  {
  }

  lemma RegroupHeading(h: string, d: string, f: string, o: string, c: string, s: string, k: string,
                    b: string, n: string, x: string, e: string)
    ensures h + d + f + o + c + s + k + b + n + x + e == h + (d + f + o + c + s + k + b + n + x + e)
  {
  }

  /** The sender's line, read back from a whole section. */
  lemma FromRead(r: EmailRecord, idx: nat)
    requires SkipSpace(r.from, 0) < |r.from| && '\n' !in r.from
    requires r.date.Some? ==> '*' !in FormatSeconds(r.date.value)
    ensures LineField(Section(r, idx), "**From**:", 0) == Some(LStrip(r.from))
  {
    var a := Heading(idx) + DateLine(r);
    var more := HeaderLine("To", r.to) + CcLine(r) + HeaderLine("Subject", r.subject) + "### Content\n\n"
      + Strip(r.body) + "\n\n" + AttachmentBlock(r.attachments) + "---\n\n";
    SectionPieces(r, idx);
    RegroupFrom(Heading(idx), DateLine(r), HeaderLine("From", r.from), HeaderLine("To", r.to), CcLine(r),
      HeaderLine("Subject", r.subject), "### Content\n\n", Strip(r.body), "\n\n",
      AttachmentBlock(r.attachments), "---\n\n");
    assert Section(r, idx) == a + HeaderLine("From", r.from) + more;
    Names();
    PrefixAbsent(r, idx, "From");
    Keys();
    LineFieldAt(a, "From", r.from, more);
  }

  /** The heading and the date line, the text before the sender's line, hold no key of a
      header whose name does not start with `D`, and end with a line break. */
  lemma PrefixAbsent(r: EmailRecord, idx: nat, name: string)
    requires Word(name) && name[0] != 'D'
    requires r.date.Some? ==> '*' !in FormatSeconds(r.date.value)
    ensures Absent(Heading(idx) + DateLine(r), Marker(name))
    ensures (Heading(idx) + DateLine(r))[|Heading(idx) + DateLine(r)| - 1] == '\n'
  {
    HeadingChars(idx);
    assert Marker(name)[0] == '*';
    AbsentChar(Heading(idx), Marker(name));
    if r.date.Some? {
      Names();
      HeaderLineAbsent("Date", name, FormatSeconds(r.date.value));
      HeaderLineEnds("Date", FormatSeconds(r.date.value));
    } else {
      AbsentChar(DateLine(r), Marker(name));
      assert Heading(idx) + DateLine(r) == Heading(idx);
    }
    AbsentAppend(Heading(idx), DateLine(r), Marker(name));
  }

  /** The text before the subject line holds no `**Subject**:` and ends with a line break. */
  lemma SubjectPrefixAbsent(r: EmailRecord, idx: nat)
    requires !Contains(r.from, "**Subject**:") && !Contains(r.to, "**Subject**:") && !Contains(r.cc, "**Subject**:")
    requires r.date.Some? ==> '*' !in FormatSeconds(r.date.value)
    ensures Absent(Heading(idx) + DateLine(r) + HeaderLine("From", r.from) + HeaderLine("To", r.to) + CcLine(r),
                   Marker("Subject"))
    ensures var a := Heading(idx) + DateLine(r) + HeaderLine("From", r.from) + HeaderLine("To", r.to) + CcLine(r);
            a != [] && a[|a| - 1] == '\n'
  {
    var key := Marker("Subject");
    Names();
    Keys();
    PrefixAbsent(r, idx, "Subject");
    var a0 := Heading(idx) + DateLine(r);
    ContainsAbsent(r.from, key);
    MarkerLineAbsent("From", "Subject", r.from);
    HeaderLineEnds("From", r.from);
    AbsentAppend(a0, HeaderLine("From", r.from), key);
    var a1 := a0 + HeaderLine("From", r.from);
    ContainsAbsent(r.to, key);
    MarkerLineAbsent("To", "Subject", r.to);
    HeaderLineEnds("To", r.to);
    AbsentAppend(a1, HeaderLine("To", r.to), key);
    var a2 := a1 + HeaderLine("To", r.to);
    if r.cc != "" {
      ContainsAbsent(r.cc, key);
      MarkerLineAbsent("CC", "Subject", r.cc);
      HeaderLineEnds("CC", r.cc);
    } else {
      AbsentChar(CcLine(r), key);
      assert a2 + CcLine(r) == a2;
    }
    AbsentAppend(a2, CcLine(r), key);
  }

  /** The subject's line, read back from a whole section. */
  lemma SubjectRead(r: EmailRecord, idx: nat)
    requires SkipSpace(r.subject, 0) < |r.subject| && '\n' !in r.subject
    requires !Contains(r.from, "**Subject**:") && !Contains(r.to, "**Subject**:") && !Contains(r.cc, "**Subject**:")
    requires r.date.Some? ==> '*' !in FormatSeconds(r.date.value)
    ensures LineField(Section(r, idx), "**Subject**:", 0) == Some(LStrip(r.subject))
  {
    var a := Heading(idx) + DateLine(r) + HeaderLine("From", r.from) + HeaderLine("To", r.to) + CcLine(r);
    var more := "### Content\n\n" + Strip(r.body) + "\n\n" + AttachmentBlock(r.attachments) + "---\n\n";
    SectionPieces(r, idx);
    RegroupSubject(Heading(idx), DateLine(r), HeaderLine("From", r.from), HeaderLine("To", r.to), CcLine(r),
      HeaderLine("Subject", r.subject), "### Content\n\n", Strip(r.body), "\n\n",
      AttachmentBlock(r.attachments), "---\n\n");
    assert Section(r, idx) == a + HeaderLine("Subject", r.subject) + more;
    Names();
    SubjectPrefixAbsent(r, idx);
    Keys();
    LineFieldAt(a, "Subject", r.subject, more);
  }

  /** The date line of a dated record, read back from a whole section: the timestamp. */
  lemma DateRead(r: EmailRecord, idx: nat)
    requires r.date.Some?
    ensures LineField(Section(r, idx), "**Date**:", 0) == Some(FormatSeconds(r.date.value))
  {
    var stamp := FormatSeconds(r.date.value);
    var more := HeaderLine("From", r.from) + HeaderLine("To", r.to) + CcLine(r)
      + HeaderLine("Subject", r.subject) + "### Content\n\n" + Strip(r.body) + "\n\n"
      + AttachmentBlock(r.attachments) + "---\n\n";
    SectionPieces(r, idx);
    RegroupDate(Heading(idx), DateLine(r), HeaderLine("From", r.from), HeaderLine("To", r.to), CcLine(r),
      HeaderLine("Subject", r.subject), "### Content\n\n", Strip(r.body), "\n\n",
      AttachmentBlock(r.attachments), "---\n\n");
    assert Section(r, idx) == Heading(idx) + HeaderLine("Date", stamp) + more;
    HeadingChars(idx);
    assert Marker("Date")[0] == '*';
    AbsentChar(Heading(idx), Marker("Date"));
    StampClean(r.date.value);
    Names();
    Keys();
    LineFieldAt(Heading(idx), "Date", stamp, more);
    LStripSkip(stamp);
  }

  /** The text before the content heading holds no `### Content` and ends with a line break. */
  lemma ContentPrefixAbsent(r: EmailRecord, idx: nat)
    requires !Contains(r.from, "### Content") && !Contains(r.to, "### Content")
    requires !Contains(r.cc, "### Content") && !Contains(r.subject, "### Content")
    ensures var a := Heading(idx) + DateLine(r) + HeaderLine("From", r.from) + HeaderLine("To", r.to)
                     + CcLine(r) + HeaderLine("Subject", r.subject);
            Absent(a, "### Content") && a != [] && a[|a| - 1] == '\n'
  {
    var key := "### Content";
    Names();
    HeadingAbsent(idx);
    HeadingChars(idx);
    if r.date.Some? {
      StampClean(r.date.value);
      HeaderLineChars("Date", FormatSeconds(r.date.value), '#');
      HeaderLineEnds("Date", FormatSeconds(r.date.value));
    }
    AbsentChar(DateLine(r), key);
    AbsentAppend(Heading(idx), DateLine(r), key);
    var a0 := Heading(idx) + DateLine(r);
    assert a0[|a0| - 1] == '\n' by {
      if r.date.None? { assert a0 == Heading(idx); }
    }
    ContainsAbsent(r.from, key);
    ContentLineAbsent("From", r.from);
    HeaderLineEnds("From", r.from);
    AbsentAppend(a0, HeaderLine("From", r.from), key);
    var a1 := a0 + HeaderLine("From", r.from);
    ContainsAbsent(r.to, key);
    ContentLineAbsent("To", r.to);
    HeaderLineEnds("To", r.to);
    AbsentAppend(a1, HeaderLine("To", r.to), key);
    var a2 := a1 + HeaderLine("To", r.to);
    if r.cc != "" {
      ContainsAbsent(r.cc, key);
      ContentLineAbsent("CC", r.cc);
      HeaderLineEnds("CC", r.cc);
    } else {
      AbsentChar(CcLine(r), key);
    }
    AbsentAppend(a2, CcLine(r), key);
    var a3 := a2 + CcLine(r);
    assert a3[|a3| - 1] == '\n' by {
      if r.cc == "" { assert a3 == a2; }
    }
    ContainsAbsent(r.subject, key);
    ContentLineAbsent("Subject", r.subject);
    HeaderLineEnds("Subject", r.subject);
    AbsentAppend(a3, HeaderLine("Subject", r.subject), key);
  }

  /** What follows the body starts with the attachments heading or the closing rule. */
  lemma TailStart(atts: seq<Attachment>)
    ensures StartsWith(AttachmentBlock(atts) + "---\n\n", "---")
            || StartsWith(AttachmentBlock(atts) + "---\n\n", "### Attachments")
  {
    var tail := AttachmentBlock(atts) + "---\n\n";
    if atts == [] {
      assert tail == "---\n\n";
      assert tail[..3] == "---";
    } else {
      assert tail == "### Attachments\n\n" + (AttachmentLinks(atts) + "\n" + "---\n\n");
      assert tail[..15] == "### Attachments";
    }
  }

  /** The content group, read back from a whole section: the stripped body and the line
      break after it. */
  lemma ContentSectionRead(r: EmailRecord, idx: nat)
    requires !Contains(r.from, "### Content") && !Contains(r.to, "### Content")
    requires !Contains(r.cc, "### Content") && !Contains(r.subject, "### Content")
    requires Strip(r.body) != [] && NoStopLine(Strip(r.body))
    ensures ContentField(Section(r, idx), 0) == Some(Strip(r.body) + "\n")
  {
    var a := Heading(idx) + DateLine(r) + HeaderLine("From", r.from) + HeaderLine("To", r.to)
      + CcLine(r) + HeaderLine("Subject", r.subject);
    var tail := AttachmentBlock(r.attachments) + "---\n\n";
    SectionPieces(r, idx);
    RegroupContent(Heading(idx), DateLine(r), HeaderLine("From", r.from), HeaderLine("To", r.to), CcLine(r),
      HeaderLine("Subject", r.subject), "### Content\n\n", Strip(r.body), "\n\n",
      AttachmentBlock(r.attachments), "---\n\n");
    assert Section(r, idx) == a + "### Content\n\n" + Strip(r.body) + "\n\n" + tail;
    ContentPrefixAbsent(r, idx);
    TailStart(r.attachments);
    ContentFieldAt(a, Strip(r.body), tail);
  }

  // ---------------------------------------------------------------- an undated section

  /** Text with no occurrence, in the sense of `Contains`, has none at any position. */
  lemma ContainsAbsent(s: string, pat: string)
    requires !Contains(s, pat)
    ensures Absent(s, pat)
  {
    ContainsFromIff(s, pat, 0);
    forall j ensures !StartsAt(s, j, pat) {
      if 0 <= j && j + |pat| <= |s| {
        assert 0 <= j <= |s| - |pat|;
      }
    }
  }

  /** An attachment link holds no `**Date**:` when the file name holds none. */
  lemma LinkDateAbsent(fn: string)
    requires Absent(fn, "**Date**:")
    ensures Absent("- [" + fn + "](" + fn + ")\n", "**Date**:")
  {
    var key := "**Date**:";
    AbsentChar("- [", key);
    AbsentAppend("- [", fn, key);
    AbsentChar("](", key);
    AbsentAppend("- [" + fn, "](", key);
    AbsentAppend("- [" + fn + "](", fn, key);
    AbsentChar(")\n", key);
    AbsentAppend("- [" + fn + "](" + fn, ")\n", key);
  }

  /** Attachment links hold no `**Date**:` when the file names hold none. */
  lemma {:induction false} LinksDateAbsent(atts: seq<Attachment>)
    requires forall i :: 0 <= i < |atts| ==> !Contains(atts[i].filename, "**Date**:")
    ensures Absent(AttachmentLinks(atts), "**Date**:")
    decreases |atts|
  {
    var key := "**Date**:";
    if atts == [] {
      AbsentChar(AttachmentLinks(atts), key);
    } else {
      var init, last := atts[..|atts| - 1], atts[|atts| - 1];
      assert forall i :: 0 <= i < |init| ==> init[i] == atts[i];
      LinksDateAbsent(init);
      var fn := last.filename;
      assert AttachmentLinks(atts) == AttachmentLinks(init) + AttachmentLink(last);
      assert AttachmentLink(last) == "- [" + fn + "](" + fn + ")\n";
      ContainsAbsent(fn, key);
      LinkDateAbsent(fn);
      AbsentAppend(AttachmentLinks(init), AttachmentLink(last), key);
    }
  }

  /** The attachment block holds no `**Date**:` when the file names hold none. */
  lemma BlockDateAbsent(atts: seq<Attachment>)
    requires forall i :: 0 <= i < |atts| ==> !Contains(atts[i].filename, "**Date**:")
    ensures Absent(AttachmentBlock(atts), "**Date**:")
  {
    var key := "**Date**:";
    if atts != [] {
      LinksDateAbsent(atts);
      AbsentChar("### Attachments\n\n", key);
      AbsentAppend("### Attachments\n\n", AttachmentLinks(atts), key);
      AbsentChar("\n", key);
      AbsentAppend("### Attachments\n\n" + AttachmentLinks(atts), "\n", key);
    } else {
      AbsentChar(AttachmentBlock(atts), key);
    }
  }

  /** The head of an undated section, down to the content heading, holds no `**Date**:`. */
  lemma UndatedHeadAbsent(r: EmailRecord, idx: nat)
    requires r.date.None?
    requires !Contains(r.from, "**Date**:") && !Contains(r.to, "**Date**:")
    requires !Contains(r.cc, "**Date**:") && !Contains(r.subject, "**Date**:")
    ensures var a := Heading(idx) + DateLine(r) + HeaderLine("From", r.from) + HeaderLine("To", r.to)
                     + CcLine(r) + HeaderLine("Subject", r.subject) + "### Content\n\n";
            Absent(a, "**Date**:") && a != [] && a[|a| - 1] == '\n'
  {
    var key := "**Date**:";
    Names();
    assert key == Marker("Date");
    HeadingChars(idx);
    AbsentChar(Heading(idx), key);
    var a0 := Heading(idx) + DateLine(r);
    assert a0 == Heading(idx);
    ContainsAbsent(r.from, key);
    MarkerLineAbsent("From", "Date", r.from);
    HeaderLineEnds("From", r.from);
    AbsentAppend(a0, HeaderLine("From", r.from), key);
    var a1 := a0 + HeaderLine("From", r.from);
    ContainsAbsent(r.to, key);
    MarkerLineAbsent("To", "Date", r.to);
    HeaderLineEnds("To", r.to);
    AbsentAppend(a1, HeaderLine("To", r.to), key);
    var a2 := a1 + HeaderLine("To", r.to);
    if r.cc != "" {
      ContainsAbsent(r.cc, key);
      MarkerLineAbsent("CC", "Date", r.cc);
      HeaderLineEnds("CC", r.cc);
    } else {
      AbsentChar(CcLine(r), key);
    }
    AbsentAppend(a2, CcLine(r), key);
    var a3 := a2 + CcLine(r);
    assert a3[|a3| - 1] == '\n' by {
      if r.cc == "" { assert a3 == a2; }
    }
    ContainsAbsent(r.subject, key);
    MarkerLineAbsent("Subject", "Date", r.subject);
    HeaderLineEnds("Subject", r.subject);
    AbsentAppend(a3, HeaderLine("Subject", r.subject), key);
    var a4 := a3 + HeaderLine("Subject", r.subject);
    AbsentChar("### Content\n\n", key);
    AbsentAppend(a4, "### Content\n\n", key);
  }

  /** The tail of an undated section, from the body on, holds no `**Date**:`. */
  lemma UndatedTailAbsent(r: EmailRecord)
    requires !Contains(Strip(r.body), "**Date**:")
    requires forall i :: 0 <= i < |r.attachments| ==> !Contains(r.attachments[i].filename, "**Date**:")
    ensures Absent(Strip(r.body) + "\n\n" + AttachmentBlock(r.attachments) + "---\n\n", "**Date**:")
  {
    ContainsAbsent(Strip(r.body), "**Date**:");
    BlockDateAbsent(r.attachments);
    StarKeyTail(Strip(r.body), AttachmentBlock(r.attachments), "**Date**:");
  }

  /** A key starting with `*` absent from the body and the block is absent from the tail around them. */
  lemma StarKeyTail(body: string, block: string, key: string)
    requires key != [] && key[0] == '*' && '\n' !in key && '-' !in key
    requires Absent(body, key) && Absent(block, key)
    ensures Absent(body + "\n\n" + block + "---\n\n", key)
  {
    AbsentChar("\n\n", key);
    AbsentAppend(body, "\n\n", key);
    assert (body + "\n\n")[|body + "\n\n"| - 1] == '\n';
    AbsentAppend(body + "\n\n", block, key);
    AbsentChar("---\n\n", key);
    assert ("---\n\n")[0] == '-';
    AbsentAppend(body + "\n\n" + block, "---\n\n", key);
  }

  lemma RegroupTail(h: string, d: string, f: string, o: string, c: string, s: string, k: string,
                    b: string, n: string, x: string, e: string)
    ensures h + d + f + o + c + s + k + b + n + x + e == (h + d + f + o + c + s + k) + (b + n + x + e)
  {
  }

  /** An undated section has no date line to read back. */
  lemma DateMissing(r: EmailRecord, idx: nat)
    requires r.date.None? && UndatedReadable(r)
    ensures LineField(Section(r, idx), "**Date**:", 0) == None
  {
    var head := Heading(idx) + DateLine(r) + HeaderLine("From", r.from) + HeaderLine("To", r.to)
      + CcLine(r) + HeaderLine("Subject", r.subject) + "### Content\n\n";
    var tail := Strip(r.body) + "\n\n" + AttachmentBlock(r.attachments) + "---\n\n";
    SectionPieces(r, idx);
    RegroupTail(Heading(idx), DateLine(r), HeaderLine("From", r.from), HeaderLine("To", r.to), CcLine(r),
      HeaderLine("Subject", r.subject), "### Content\n\n", Strip(r.body), "\n\n",
      AttachmentBlock(r.attachments), "---\n\n");
    assert Section(r, idx) == head + tail;
    UndatedHeadAbsent(r, idx);
    UndatedTailAbsent(r);
    AbsentAppend(head, tail, "**Date**:");
    LineFieldAbsent(head + tail, "**Date**:");
  }

  // ---------------------------------------------------------------- the number and the whole record

  /** The heading and what follows it, split after the number's line. */
  lemma HeadingSplit(idx: nat, q: string)
    ensures Heading(idx) + q == "## Email " + Decimal(idx) + "\n" + ("\n" + q)
  {
  }

  /** The number of a section is read back from its heading. */
  lemma NumberRead(r: EmailRecord, idx: nat)
    ensures NumberOf(Section(r, idx)) == Some(idx)
  {
    var q := DateLine(r) + HeaderLine("From", r.from) + HeaderLine("To", r.to) + CcLine(r)
      + HeaderLine("Subject", r.subject) + "### Content\n\n" + Strip(r.body) + "\n\n"
      + AttachmentBlock(r.attachments) + "---\n\n";
    SectionPieces(r, idx);
    RegroupHeading(Heading(idx), DateLine(r), HeaderLine("From", r.from), HeaderLine("To", r.to), CcLine(r),
      HeaderLine("Subject", r.subject), "### Content\n\n", Strip(r.body), "\n\n",
      AttachmentBlock(r.attachments), "---\n\n");
    assert Section(r, idx) == Heading(idx) + q;
    HeadingSplit(idx, q);
    NumberOfHeader(idx, "\n" + q);
  }

  /** A section opens with its numbered heading and closes with the rule. */
  lemma SectionShape(r: EmailRecord, idx: nat)
    ensures StartsWith(Section(r, idx), "## Email " + Decimal(idx) + "\n\n")
    ensures EndsWith(Section(r, idx), "---\n\n")
  {
    var q := DateLine(r) + HeaderLine("From", r.from) + HeaderLine("To", r.to) + CcLine(r)
      + HeaderLine("Subject", r.subject) + "### Content\n\n" + Strip(r.body) + "\n\n"
      + AttachmentBlock(r.attachments) + "---\n\n";
    SectionPieces(r, idx);
    RegroupHeading(Heading(idx), DateLine(r), HeaderLine("From", r.from), HeaderLine("To", r.to), CcLine(r),
      HeaderLine("Subject", r.subject), "### Content\n\n", Strip(r.body), "\n\n",
      AttachmentBlock(r.attachments), "---\n\n");
    assert Section(r, idx) == Heading(idx) + q;
    StartsWithJoint(Heading(idx), q);
    EndsWithJoint(Heading(idx) + DateLine(r) + HeaderLine("From", r.from) + HeaderLine("To", r.to) + CcLine(r)
      + HeaderLine("Subject", r.subject) + "### Content\n\n" + Strip(r.body) + "\n\n"
      + AttachmentBlock(r.attachments), "---\n\n");
  }

  /** Text that starts with a non-space character is not blank. */
  lemma StripNonBlank(s: string)
    requires s != [] && !IsSpace(s[0])
    ensures Strip(s) != []
  {
    assert LStrip(s) == s;
  }

  /** The content group of a readable section comes back as the stripped body. */
  lemma ContentBack(body: string)
    requires NoSepLine(Strip(body)) && !Contains(Strip(body), Token)
    ensures Truncate(Strip(Strip(Strip(body) + "\n"))) == Strip(body)
  {
    var b := Strip(body);
    assert "" + b + "\n" == b + "\n";
    StripPadded("", b, "\n");
    StripNoop(b);
  }

  /** What the six searches of the parser find in the section of a readable record. */
  lemma SectionFields(r: EmailRecord, idx: nat)
    requires Readable(r)
    ensures var f := FindFields(Section(r, idx));
            && f.from == Some(LStrip(r.from))
            && f.subject == Some(LStrip(r.subject))
            && f.content == Some(Strip(r.body) + "\n")
            && f.date == (if r.date.Some? then Some(FormatSeconds(r.date.value)) else None)
  {
    if r.date.Some? {
      StampClean(r.date.value);
      DateRead(r, idx);
    } else {
      DateMissing(r, idx);
    }
    FromRead(r, idx);
    SubjectRead(r, idx);
    ContentSectionRead(r, idx);
  }

  /** A section is not blank: it starts with its heading. */
  lemma SectionNonBlank(r: EmailRecord, idx: nat)
    ensures Strip(Section(r, idx)) != []
  {
    HeadingChars(idx);
    assert SectionHead(r, idx)[0] == '#';
    assert Section(r, idx)[0] == '#';
    StripNonBlank(Section(r, idx));
  }

  /** An email read back from the section of record `r`, numbered `idx`: it carries the
      number, the sender and subject with their whitespace collapsed (the subject without reply
      and forward prefixes), the stripped body, and the converter's timestamp as its input date,
      parsed with `strptime`; when `strptime` inverts the timestamp, the record's own date,
      rendered to the minute. An undated record gives an undated email. */
  predicate ReadBack(strptime: string -> Option<DateTime>, r: EmailRecord, idx: nat, e: ParsedEmail) {
    e.number == Some(idx)
    && e.from == CleanWs(r.from)
    && e.subject == StripSubjectPrefixes(CleanWs(r.subject))
    && e.content == Strip(r.body)
    && (r.date.None? ==> e.dateIn == "" && e.date.None? && e.dateOut == "")
    && (r.date.Some? ==>
          e.dateIn == FormatSeconds(r.date.value) && e.date == strptime(FormatSeconds(r.date.value)))
    && (r.date.Some? && strptime(FormatSeconds(r.date.value)) == r.date ==>
          e.date == r.date && e.dateOut == FormatMinutes(r.date.value))
  }

  /** The email built from the fields found in a record's section. */
  lemma EmailRead(strptime: string -> Option<DateTime>, f: Fields, r: EmailRecord, idx: nat)
    requires NoSepLine(Strip(r.body)) && !Contains(Strip(r.body), Token)
    requires && f.from == Some(LStrip(r.from))
             && f.subject == Some(LStrip(r.subject))
             && f.content == Some(Strip(r.body) + "\n")
             && f.date == (if r.date.Some? then Some(FormatSeconds(r.date.value)) else None)
    ensures ReadBack(strptime, r, idx, MakeEmail(strptime, Some(idx), f))
  {
    CleanWsLStrip(r.from);
    CleanWsLStrip(r.subject);
    ContentBack(r.body);
    if r.date.Some? {
      StampClean(r.date.value);
      CleanWsNoop(FormatSeconds(r.date.value));
    }
  }

  /** What the parser makes of a non-blank chunk whose searches found the sender, the subject,
      the content and, when there is one, the timestamp of a record. */
  lemma ChunkRead(strptime: string -> Option<DateTime>, chunk: string, r: EmailRecord, idx: nat)
    requires Strip(chunk) != [] && NumberOf(chunk) == Some(idx)
    requires NoSepLine(Strip(r.body)) && !Contains(Strip(r.body), Token)
    requires var f := FindFields(chunk);
             && f.from == Some(LStrip(r.from))
             && f.subject == Some(LStrip(r.subject))
             && f.content == Some(Strip(r.body) + "\n")
             && f.date == (if r.date.Some? then Some(FormatSeconds(r.date.value)) else None)
    ensures ParseChunk(strptime, chunk).Some?
    ensures ReadBack(strptime, r, idx, ParseChunk(strptime, chunk).value)
  {
    EmailRead(strptime, FindFields(chunk), r, idx);
  }

  /** The round trip of one email: the parser reads the section the converter writes for a
      readable record back into an email with the section's number, the sender and subject
      with their whitespace collapsed (and the subject without reply and forward prefixes),
      the stripped body, and the date as the converter wrote it, parsed back with
      `strptime`. When `strptime` inverts the converter's timestamp, the date is the record's
      own date, rendered to the minute. */
  lemma SectionRoundTrip(strptime: string -> Option<DateTime>, r: EmailRecord, idx: nat)
    requires Readable(r)
    ensures ParseChunk(strptime, Section(r, idx)).Some?
    ensures ReadBack(strptime, r, idx, ParseChunk(strptime, Section(r, idx)).value)
  {
    SectionFields(r, idx);
    SectionNonBlank(r, idx);
    NumberRead(r, idx);
    ChunkRead(strptime, Section(r, idx), r, idx);
  }
}
