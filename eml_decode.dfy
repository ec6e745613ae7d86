/** Text decoding in the forward converter (eml2md.py): part payloads and header values. */
module EmlDecode {
  import opened Results
  import opened Mime

  /** `part.get_content_charset() or 'utf-8'`. */
  function CharsetOrUtf8(charset: Option<string>): string
  {
    if charset.Some? && charset.value != "" then charset.value else "utf-8"
  }

  /** `decode_content` exactly as written: it catches only `UnicodeDecodeError`, so a
      charset Python does not know makes the `LookupError` escape to the caller. */
  function DecodeContentAsWritten(lib: Library, payload: Bytes, charset: Option<string>): (r: Result<string>)
    ensures lib.decode(payload, CharsetOrUtf8(charset)).LookupError? ==> r == Raised("LookupError")
    ensures lib.decode(payload, CharsetOrUtf8(charset)).DecodedText?
            ==> r == Ok(lib.decode(payload, CharsetOrUtf8(charset)).text)
  {
    match lib.decode(payload, CharsetOrUtf8(charset))
    case DecodedText(t) => Ok(t)
    case LookupError => Raised("LookupError")
    case UnicodeDecodeError =>
      match lib.decode(payload, "utf-8")
      case DecodedText(t) => Ok(t)
      case LookupError => Raised("LookupError")
      case UnicodeDecodeError => Ok(lib.decodeUtf8Lossy(payload))
  }

  /** `decode_content` as its comments intend: the declared charset (default utf-8), then
      utf-8, then utf-8 dropping undecodable bytes. An unknown charset falls through to the
      next attempt like undecodable bytes do, so the result is always text. */
  function DecodeContent(lib: Library, payload: Bytes, charset: Option<string>): (r: string)
    ensures lib.decode(payload, CharsetOrUtf8(charset)).DecodedText?
            ==> r == lib.decode(payload, CharsetOrUtf8(charset)).text
    ensures !lib.decode(payload, CharsetOrUtf8(charset)).DecodedText?
            && lib.decode(payload, "utf-8").DecodedText?
            ==> r == lib.decode(payload, "utf-8").text
    ensures !lib.decode(payload, CharsetOrUtf8(charset)).DecodedText?
            && !lib.decode(payload, "utf-8").DecodedText?
            ==> r == lib.decodeUtf8Lossy(payload)
  {
    match lib.decode(payload, CharsetOrUtf8(charset))
    case DecodedText(t) => t
    case _ =>
      match lib.decode(payload, "utf-8")
      case DecodedText(t) => t
      case _ => lib.decodeUtf8Lossy(payload)
  }

  /** The two agree wherever the code as written returns; they differ only where it raises. */
  lemma DecodeContentAgrees(lib: Library, payload: Bytes, charset: Option<string>)
    ensures DecodeContentAsWritten(lib, payload, charset).Ok?
            ==> DecodeContentAsWritten(lib, payload, charset).value == DecodeContent(lib, payload, charset)
  {
  }

  /** A library where `unknown-8bit`, a charset label common in real mail, is not a codec. */
  function LibraryWithoutUnknown8bit(): Library
  {
    Library(
      (b: Bytes, cs: string) => if cs == "unknown-8bit" then LookupError else DecodedText("text"),
      (b: Bytes) => "lossy",
      (h: string) => [StrSegment(h)],
      (s: string) => None)
  }

  /** A text part declaring `charset=unknown-8bit` makes the code as written raise, while the
      corrected decoder returns the utf-8 reading of the same bytes. */
  lemma UnknownCharsetRaises()
    ensures DecodeContentAsWritten(LibraryWithoutUnknown8bit(), [104, 105], Some("unknown-8bit"))
            == Raised("LookupError")
    ensures DecodeContent(LibraryWithoutUnknown8bit(), [104, 105], Some("unknown-8bit")) == "text"
  {
  }

  /** One element of `decode_header`'s result, as the loop body of `decode_email_header`
      handles it: a `str` as is; bytes with their own charset, falling back to lossy utf-8
      when that charset is missing, unknown or rejects the bytes. */
  function DecodeSegment(lib: Library, seg: Segment): (r: string)
    ensures seg.StrSegment? ==> r == seg.text
    ensures seg.BytesSegment? && seg.charset.Some? && seg.charset.value != ""
            && lib.decode(seg.bytes, seg.charset.value).DecodedText?
            ==> r == lib.decode(seg.bytes, seg.charset.value).text
    ensures seg.BytesSegment?
            && !(seg.charset.Some? && seg.charset.value != "" && lib.decode(seg.bytes, seg.charset.value).DecodedText?)
            ==> r == lib.decodeUtf8Lossy(seg.bytes)
  {
    match seg
    case StrSegment(t) => t
    case BytesSegment(b, cs) =>
      if cs.Some? && cs.value != "" then
        match lib.decode(b, cs.value)
        case DecodedText(t) => t
        case _ => lib.decodeUtf8Lossy(b)
      else lib.decodeUtf8Lossy(b)
  }

  /** The in-order concatenation of the decoded segments. */
  function SegmentsText(lib: Library, segs: seq<Segment>): string
  {
    if segs == [] then "" else SegmentsText(lib, segs[..|segs| - 1]) + DecodeSegment(lib, segs[|segs| - 1])
  }

  /** Decoding a header split in two is decoding each half and joining the results. */
  lemma {:induction false} SegmentsTextAppend(lib: Library, a: seq<Segment>, b: seq<Segment>)
    ensures SegmentsText(lib, a + b) == SegmentsText(lib, a) + SegmentsText(lib, b)
    decreases |b|
  {
    if b == [] {
      assert a + b == a;
    } else {
      assert (a + b)[..|a + b| - 1] == a + b[..|b| - 1];
      SegmentsTextAppend(lib, a, b[..|b| - 1]);
    }
  }

  /** A header without encoded words decodes to the concatenation of its plain runs. */
  function PlainTexts(segs: seq<Segment>): string
    requires forall i :: 0 <= i < |segs| ==> segs[i].StrSegment?
  {
    if segs == [] then "" else PlainTexts(segs[..|segs| - 1]) + segs[|segs| - 1].text
  }

  lemma {:induction false} SegmentsTextPlain(lib: Library, segs: seq<Segment>)
    requires forall i :: 0 <= i < |segs| ==> segs[i].StrSegment?
    ensures SegmentsText(lib, segs) == PlainTexts(segs)
    decreases |segs|
  {
    if segs != [] {
      SegmentsTextPlain(lib, segs[..|segs| - 1]);
    }
  }

  /** `decode_email_header(header)`, as a value. */
  function HeaderText(lib: Library, header: Option<string>): (r: string)
    ensures header.None? ==> r == ""
  {
    if header.None? then "" else SegmentsText(lib, lib.decodeHeader(header.value))
  }

  /** `decode_email_header`: "" for an absent header, otherwise the decoded segments of
      `decode_header(header)` appended one by one. */
  method DecodeEmailHeader(lib: Library, header: Option<string>) returns (r: string)
    ensures header.None? ==> r == ""
    ensures header.Some? ==> r == SegmentsText(lib, lib.decodeHeader(header.value))
  {
    if header.None? {
      return "";
    }
    var segs := lib.decodeHeader(header.value);
    var decodedParts: seq<string> := [];
    var i := 0;
    while i < |segs|
      invariant 0 <= i <= |segs| && |decodedParts| == i
      invariant forall k :: 0 <= k < i ==> decodedParts[k] == DecodeSegment(lib, segs[k])
    {
      var seg := segs[i];
      if seg.BytesSegment? {
        if seg.charset.Some? && seg.charset.value != "" {
          var d := lib.decode(seg.bytes, seg.charset.value);
          if d.DecodedText? {
            decodedParts := decodedParts + [d.text];
          } else {
            decodedParts := decodedParts + [lib.decodeUtf8Lossy(seg.bytes)];
          }
        } else {
          decodedParts := decodedParts + [lib.decodeUtf8Lossy(seg.bytes)];
        }
      } else {
        decodedParts := decodedParts + [seg.text];
      }
      i := i + 1;
    }
    r := JoinAll(decodedParts);
    JoinAllDecoded(lib, segs, decodedParts);
  }

  /** `"".join(parts)`. */
  function JoinAll(parts: seq<string>): string
  {
    if parts == [] then "" else JoinAll(parts[..|parts| - 1]) + parts[|parts| - 1]
  }

  lemma {:induction false} JoinAllDecoded(lib: Library, segs: seq<Segment>, parts: seq<string>)
    requires |parts| == |segs|
    requires forall k :: 0 <= k < |segs| ==> parts[k] == DecodeSegment(lib, segs[k])
    ensures JoinAll(parts) == SegmentsText(lib, segs)
    decreases |segs|
  {
    if segs != [] {
      JoinAllDecoded(lib, segs[..|segs| - 1], parts[..|parts| - 1]);
    }
  }
}
