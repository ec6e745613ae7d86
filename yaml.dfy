/** The front-matter block the reverse parser emits for one email (`render_obsidian_yaml`,
    read_md_email.py). */
module Yaml {
  import opened Results
  import opened Text
  import opened DateTimes
  import opened MdParse

  // ---------------------------------------------------------------- str.split(' ')

  /** Python's `s.split(c)` for one character: the pieces between the occurrences of `c`,
      empty pieces included. */
  function SplitOn(s: string, c: char): (parts: seq<string>)
    ensures |parts| >= 1
  {
    if s == [] then [""]
    else
      var init := SplitOn(s[..|s| - 1], c);
      if s[|s| - 1] == c then init + [""]
      else init[..|init| - 1] + [init[|init| - 1] + [s[|s| - 1]]]
  }

  /** No piece holds the separator. */
  predicate Pieces(parts: seq<string>, c: char) { forall i :: 0 <= i < |parts| ==> c !in parts[i] }

  /** Splitting and joining again with the separator gives the text back. */
  lemma {:induction false} SplitJoin(s: string, c: char)
    ensures Join(SplitOn(s, c), [c]) == s
  {
    if s != [] {
      var t, x := s[..|s| - 1], s[|s| - 1];
      assert s == t + [x];
      SplitJoin(t, c);
      var init := SplitOn(t, c);
      var n := |init|;
      if x == c {
        assert (init + [""])[..n] == init;
      } else {
        var front, w := init[..n - 1], init[n - 1];
        var parts := front + [w + [x]];
        assert parts[..n - 1] == front && parts[n - 1] == w + [x];
        if n > 1 {
          assert init[..n - 1] == front;
          assert Join(init, [c]) == Join(front, [c]) + [c] + w;
          assert Join(parts, [c]) == Join(front, [c]) + [c] + (w + [x]);
        } else {
          assert Join(init, [c]) == w;
        }
      }
    }
  }

  /** No piece holds the separator. */
  lemma {:induction false} SplitPieces(s: string, c: char)
    ensures Pieces(SplitOn(s, c), c)
  {
    if s != [] {
      var t, x := s[..|s| - 1], s[|s| - 1];
      SplitPieces(t, c);
      var init := SplitOn(t, c);
      var n := |init|;
      if x != c {
        var parts := init[..n - 1] + [init[n - 1] + [x]];
        forall i | 0 <= i < |parts| ensures c !in parts[i] {
          if i < n - 1 { assert parts[i] == init[i]; }
        }
      }
    }
  }

  /** A text without the separator is one piece. */
  lemma {:induction false} SplitNone(s: string, c: char)
    requires c !in s
    ensures SplitOn(s, c) == [s]
  {
    if s != [] {
      SplitNone(s[..|s| - 1], c);
      assert s[..|s| - 1] + [s[|s| - 1]] == s;
    }
  }

  /** A text with the separator exactly once splits into the two sides. */
  lemma {:induction false} SplitTwo(a: string, b: string, c: char)
    requires c !in a && c !in b
    ensures SplitOn(a + [c] + b, c) == [a, b]
    decreases |b|
  {
    var s := a + [c] + b;
    if b == [] {
      SplitNone(a, c);
      assert s[..|s| - 1] == a;
    } else {
      var b0 := b[..|b| - 1];
      assert c !in b0 by {
        forall i | 0 <= i < |b0| ensures b0[i] != c { assert b0[i] == b[i]; }
      }
      SplitTwo(a, b0, c);
      assert s[..|s| - 1] == a + [c] + b0;
      assert b0 + [b[|b| - 1]] == b;
    }
  }

  // ---------------------------------------------------------------- the quoted subject

  /** `subject.replace('"', '\\"')`: every double quote gets a backslash in front. */
  function EscapeQuotes(s: string): string
  {
    ReplaceChar(s, '"', "\\\"")
  }

  /** Reading `\"` back as `"`, left to right; every other character stands for itself. */
  function UnescapeQuotes(s: string): string
  {
    if s == [] then []
    else if |s| >= 2 && s[0] == '\\' && s[1] == '"' then "\"" + UnescapeQuotes(s[2..])
    else [s[0]] + UnescapeQuotes(s[1..])
  }

  lemma {:induction false} ReplaceCharAppend(a: string, b: string, c: char, rep: string)
    ensures ReplaceChar(a + b, c, rep) == ReplaceChar(a, c, rep) + ReplaceChar(b, c, rep)
    decreases |b|
  {
    if b != [] {
      var b0, x := b[..|b| - 1], b[|b| - 1];
      ReplaceCharAppend(a, b0, c, rep);
      assert (a + b)[..|a + b| - 1] == a + b0 && (a + b)[|a + b| - 1] == x;
      var tail := if x == c then rep else [x];
      assert ReplaceChar(a + b, c, rep) == ReplaceChar(a + b0, c, rep) + tail;
      assert ReplaceChar(b, c, rep) == ReplaceChar(b0, c, rep) + tail;
      AppendAssoc(ReplaceChar(a, c, rep), ReplaceChar(b0, c, rep), tail);
    } else {
      assert a + b == a;
    }
  }

  /** An escaped text never starts with a bare quote. */
  lemma EscapedHead(s: string)
    requires s != []
    ensures EscapeQuotes(s) != [] && EscapeQuotes(s)[0] != '"'
  {
    ReplaceCharAppend([s[0]], s[1..], '"', "\\\"");
    assert [s[0]] + s[1..] == s;
    assert ReplaceChar([s[0]], '"', "\\\"") == (if s[0] == '"' then "\\\"" else [s[0]]) by {
      assert [s[0]][..0] == [];
    }
  }

  /** Escaping the quotes of the subject loses nothing: unescaping gives it back. */
  lemma {:induction false} EscapeQuotesRoundTrip(s: string)
    ensures UnescapeQuotes(EscapeQuotes(s)) == s
    decreases |s|
  {
    if s != [] {
      var rest := s[1..];
      EscapeQuotesRoundTrip(rest);
      ReplaceCharAppend([s[0]], rest, '"', "\\\"");
      assert [s[0]] + rest == s;
      assert [s[0]][..0] == [];
      var er := EscapeQuotes(rest);
      if s[0] == '"' {
        assert EscapeQuotes(s) == "\\\"" + er;
        assert (("\\\"" + er)[2..]) == er;
      } else {
        assert EscapeQuotes(s) == [s[0]] + er;
        if rest != [] { EscapedHead(rest); }
        assert ([s[0]] + er)[1..] == er;
      }
    }
  }

  /** Every double quote of the escaped text has a backslash in front of it. */
  lemma {:induction false} QuotesEscaped(s: string)
    ensures forall i :: 0 <= i < |EscapeQuotes(s)| && EscapeQuotes(s)[i] == '"'
              ==> i > 0 && EscapeQuotes(s)[i - 1] == '\\'
    decreases |s|
  {
    if s != [] {
      var t := s[..|s| - 1];
      QuotesEscaped(t);
      var et := EscapeQuotes(t);
      var tail := if s[|s| - 1] == '"' then "\\\"" else [s[|s| - 1]];
      assert EscapeQuotes(s) == et + tail;
      forall i | 0 <= i < |et + tail| && (et + tail)[i] == '"' ensures i > 0 && (et + tail)[i - 1] == '\\' {
        if i < |et| {
          assert (et + tail)[i] == et[i] && (et + tail)[i - 1] == et[i - 1];
        }
      }
    }
  }

  // ---------------------------------------------------------------- the lines

  /** The fixed opening of the block. */
  const FrontHeader: seq<string> := ["---", "email_thread:", "aliases: []", "type: email", "tags:", "  - "]

  /** `f"  - {r}"` for each recipient, in order. */
  function ItemLines(rs: seq<string>): (ls: seq<string>)
    ensures |ls| == |rs|
  {
    seq(|rs|, i requires 0 <= i < |rs| => "  - " + rs[i])
  }

  /** The `date:` and `time:` lines: `date_out` must split into exactly two pieces, else the
      unpacking raises `ValueError`; without it, `date_in` is split when it has a space and
      written whole when it has none. */
  function DateLines(e: ParsedEmail): (r: Result<seq<string>>)
    ensures r.Raised? ==> e.dateOut != "" && |SplitOn(e.dateOut, ' ')| != 2
  {
    if e.dateOut != "" then
      var parts := SplitOn(e.dateOut, ' ');
      if |parts| != 2 then Raised("ValueError")
      else Ok(["date: " + parts[0], "time: " + parts[1]])
    else if e.dateIn != "" then
      var parts := SplitOn(e.dateIn, ' ');
      if |parts| >= 2 then Ok(["date: " + parts[0], "time: " + parts[1]])
      else Ok(["date: " + e.dateIn])
    else Ok([])
  }

  /** The subject line: the subject in double quotes, its quotes escaped. */
  function SubjectLine(subject: string): string
  {
    "subject: \"" + EscapeQuotes(subject) + "\""
  }

  /** The `cc:` block, only for a non-empty cc list. */
  function CcBlock(cc: seq<string>): seq<string>
  {
    if cc != [] then ["cc:"] + ItemLines(cc) else []
  }

  /** The lines of the block, in order. */
  function YamlLines(e: ParsedEmail): Result<seq<string>>
  {
    match DateLines(e)
    case Raised(x) => Raised(x)
    case Ok(dl) =>
      Ok(FrontHeader + dl + ["sender: " + e.from] + ["to:"] + ItemLines(e.toList)
         + CcBlock(e.ccList) + [SubjectLine(e.subject)] + ["---\n"])
  }

  /** `render_obsidian_yaml(email)`: the lines joined with line breaks. */
  function ObsidianYaml(e: ParsedEmail): Result<string>
  {
    match YamlLines(e)
    case Raised(x) => Raised(x)
    case Ok(ls) => Ok(Join(ls, "\n"))
  }

  /** `render_obsidian_yaml`, appending line by line. */
  method RenderObsidianYaml(email: ParsedEmail) returns (r: Result<string>)
    ensures r == ObsidianYaml(email)
  {
    var lines := FrontHeader;
    var dated := AppendDateLines(lines, email);
    if dated.Raised? {
      assert YamlLines(email) == Raised("ValueError");
      return Raised(dated.exception);
    }
    lines := dated.value;
    lines := lines + ["sender: " + email.from];
    lines := lines + ["to:"];
    lines := AppendItems(lines, email.toList);
    if email.ccList != [] {
      ghost var before := lines;
      lines := lines + ["cc:"];
      lines := AppendItems(lines, email.ccList);
      AppendAssoc(before, ["cc:"], ItemLines(email.ccList));
    } else {
      assert lines + CcBlock(email.ccList) == lines;
    }
    lines := lines + ["subject: \"" + EscapeQuotes(email.subject) + "\""];
    lines := lines + ["---\n"];
    assert YamlLines(email) == Ok(lines);
    r := Ok(Join(lines, "\n"));
  }

  /** The date branch of `render_obsidian_yaml`: the lines it appends, or the `ValueError`
      of unpacking a `date_out` that does not split in two. */
  method AppendDateLines(lines: seq<string>, email: ParsedEmail) returns (r: Result<seq<string>>)
    ensures DateLines(email).Raised? ==> r == Raised("ValueError")
    ensures DateLines(email).Ok? ==> r == Ok(lines + DateLines(email).value)
  {
    if email.dateOut != "" {
      var parts := SplitOn(email.dateOut, ' ');
      if |parts| != 2 {
        return Raised("ValueError");
      }
      var out := lines + ["date: " + parts[0]];
      out := out + ["time: " + parts[1]];
      AppendAssoc(lines, ["date: " + parts[0]], ["time: " + parts[1]]);
      assert ["date: " + parts[0]] + ["time: " + parts[1]] == DateLines(email).value;
      r := Ok(out);
    } else if email.dateIn != "" {
      var parts := SplitOn(email.dateIn, ' ');
      if |parts| >= 2 {
        var out := lines + ["date: " + parts[0]];
        out := out + ["time: " + parts[1]];
        AppendAssoc(lines, ["date: " + parts[0]], ["time: " + parts[1]]);
        assert ["date: " + parts[0]] + ["time: " + parts[1]] == DateLines(email).value;
        r := Ok(out);
      } else {
        r := Ok(lines + ["date: " + email.dateIn]);
      }
    } else {
      r := Ok(lines);
      assert lines + [] == lines;
    }
  }

  /** The loop `for r in rs: lines.append(f"  - {r}")`. */
  method AppendItems(lines: seq<string>, rs: seq<string>) returns (out: seq<string>)
    ensures out == lines + ItemLines(rs)
  {
    out := lines;
    var i := 0;
    while i < |rs|
      invariant 0 <= i <= |rs|
      invariant out == lines + ItemLines(rs[..i])
    {
      assert ItemLines(rs[..i + 1]) == ItemLines(rs[..i]) + ["  - " + rs[i]];
      out := out + ["  - " + rs[i]];
      i := i + 1;
    }
    assert rs[..i] == rs;
  }

  // ---------------------------------------------------------------- properties

  /** For an email whose `date_out` is the minute rendering of its date, as every email
      `parse_emails` returns, the block is produced, and its date and time lines are the
      two halves of that rendering. */
  lemma YamlOfParsedEmail(e: ParsedEmail)
    requires DatesAgree(e)
    ensures ObsidianYaml(e).Ok?
    ensures e.date.Some? ==>
      DateLines(e) == Ok(["date: " + DatePart(e.date.value), "time: " + TimePart(e.date.value)])
  {
    if e.date.Some? {
      var d := e.date.value;
      FormatShape(d);
      SplitTwo(DatePart(d), TimePart(d), ' ');
      assert DatePart(d) + " " + TimePart(d) == DatePart(d) + [' '] + TimePart(d);
    }
  }

  /** Exactly one piece gives no time line: a `date_out` without a space raises. */
  lemma DateOutWithoutSpaceRaises(e: ParsedEmail)
    requires e.dateOut != "" && ' ' !in e.dateOut
    ensures ObsidianYaml(e).Raised?
  {
    SplitNone(e.dateOut, ' ');
  }

  /** Every date line is longer than `cc:`. */
  lemma DateLinesLong(e: ParsedEmail)
    requires DateLines(e).Ok?
    ensures forall i :: 0 <= i < |DateLines(e).value| ==> |DateLines(e).value[i]| >= 6
  {
  }

  /** The lines of the block, from their parts: the opening, the date lines, the sender,
      `to:` with its items, the cc block, the subject and the closing line. */
  lemma {:induction false} LinesShape(dl: seq<string>, from: string, to: seq<string>, cc: seq<string>, subject: string)
    requires forall i :: 0 <= i < |dl| ==> |dl[i]| >= 6
    ensures var ls := FrontHeader + dl + ["sender: " + from] + ["to:"] + ItemLines(to)
                      + CcBlock(cc) + [SubjectLine(subject)] + ["---\n"];
      && |ls| >= 10 && ls[0] == "---" && ls[|ls| - 1] == "---\n"
      && ls[|ls| - 2] == SubjectLine(subject)
      && ls[|FrontHeader| + |dl| + 1] == "to:"
      && ls[|FrontHeader| + |dl| + 2..|FrontHeader| + |dl| + 2 + |to|] == ItemLines(to)
      && ("cc:" in ls <==> cc != [])
  {
    var head := FrontHeader + dl + ["sender: " + from] + ["to:"];
    var ls := head + ItemLines(to) + CcBlock(cc) + [SubjectLine(subject)] + ["---\n"];
    var n := |head| + |to|;
    assert ls[|head|..n] == ItemLines(to);
    if cc != [] {
      assert ls[n] == "cc:";
    } else {
      assert ls == head + ItemLines(to) + [SubjectLine(subject), "---\n"];
      forall i | 0 <= i < |ls| ensures ls[i] != "cc:" {
        if i < |FrontHeader| {
          assert ls[i] == FrontHeader[i];
        } else if i < |FrontHeader| + |dl| {
          assert ls[i] == dl[i - |FrontHeader|];
        } else if i < |head| {
        } else if i < n {
          assert ls[i] == ItemLines(to)[i - |head|];
        } else {
        }
      }
    }
  }

  /** The block opens with `---` and closes with `---\n`; the `to:` line is always there,
      followed by one `  - r` line per To recipient in order; a `cc:` line is there exactly
      when the cc list is non-empty; and the line before the closing one holds the subject in
      double quotes with its quotes escaped. */
  lemma YamlLinesShape(e: ParsedEmail)
    requires YamlLines(e).Ok?
    ensures var ls := YamlLines(e).value;
      && |ls| >= 10 && ls[0] == "---" && ls[|ls| - 1] == "---\n"
      && ls[|ls| - 2] == "subject: \"" + EscapeQuotes(e.subject) + "\""
      && (exists k :: 0 <= k && k + 1 + |e.toList| <= |ls| && ls[k] == "to:"
            && ls[k + 1..k + 1 + |e.toList|] == ItemLines(e.toList))
      && ("cc:" in ls <==> e.ccList != [])
  {
    var dl := DateLines(e).value;
    DateLinesLong(e);
    LinesShape(dl, e.from, e.toList, e.ccList, e.subject);
    var k := |FrontHeader| + |dl| + 1;
    assert YamlLines(e).value[k] == "to:";
  }

  /** The rendered block starts with the line `---` and ends with `---\n`. */
  lemma YamlFrame(e: ParsedEmail)
    requires ObsidianYaml(e).Ok?
    ensures StartsWith(ObsidianYaml(e).value, "---\n")
    ensures EndsWith(ObsidianYaml(e).value, "---\n")
  {
    YamlLinesShape(e);
    var ls := YamlLines(e).value;
    var out := ObsidianYaml(e).value;
    JoinCons(ls[0], ls[1..], "\n");
    assert [ls[0]] + ls[1..] == ls;
    assert out == "---" + "\n" + Join(ls[1..], "\n");
    assert out[..4] == "---\n";
    assert out == Join(ls[..|ls| - 1], "\n") + "\n" + "---\n";
  }
}
