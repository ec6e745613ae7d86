/** The parsed message that Python's `email` package hands to the converter, as a tree of
    parts, and the library calls the converter makes on it. The parser itself, the codecs
    and the date parser are not modelled: they are the fields of a `Library` value. */
module Mime {
  import opened Results
  import opened DateTimes

  newtype byte = x: int | 0 <= x < 256

  type Bytes = seq<byte>

  /** What `bytes.decode(encoding)` does: return text, raise `UnicodeDecodeError` on bytes
      the codec rejects, or raise `LookupError` for an encoding Python does not know. */
  datatype Decoded = DecodedText(text: string) | UnicodeDecodeError | LookupError

  /** One `(content, charset)` pair of `email.header.decode_header(value)`: a `str`, or
      `bytes` with the charset of its encoded word (None for unencoded runs). */
  datatype Segment = StrSegment(text: string) | BytesSegment(bytes: Bytes, charset: Option<string>)

  /** The library functions the converter calls, taken as given. */
  datatype Library = Library(
    /** `content.decode(encoding)`. */
    decode: (Bytes, string) -> Decoded,
    /** `content.decode('utf-8', errors='ignore')`, which cannot raise. */
    decodeUtf8Lossy: Bytes -> string,
    /** `email.header.decode_header(value)`. */
    decodeHeader: string -> seq<Segment>,
    /** `parsedate_to_datetime(value)`, None where it raises. */
    parseDate: string -> Option<DateTime>)

  /** The header values the extractor reads: `msg.get('Date')` (None when absent) and
      `msg.get(name, '')` for the others (empty when absent). */
  datatype Headers = Headers(date: Option<string>, from: string, to: string, cc: string, subject: string)

  /** The payload of a part: bytes (`get_payload(decode=True)`) for a leaf, the list of
      sub-messages for a multipart or message part (`is_multipart()`). */
  datatype Body = Leaf(payload: Bytes) | Multi(parts: seq<Part>)

  /** One part of a message: `get_content_type()`, the Content-Disposition header (empty
      when absent), `get_filename()`, `get_content_charset()`, its headers and payload. */
  datatype Part = Part(
    contentType: string,
    disposition: string,
    filename: Option<string>,
    charset: Option<string>,
    headers: Headers,
    body: Body)

  function Children(p: Part): seq<Part>
  {
    if p.body.Multi? then p.body.parts else []
  }

  /** `p.walk()`: the part itself, then the walks of its sub-parts, in order (pre-order). */
  function Walk(p: Part): (r: seq<Part>)
    ensures |r| >= 1 && r[0] == p
    decreases p, |Children(p)| + 1
  {
    [p] + WalkChildren(p, |Children(p)|)
  }

  /** The concatenated walks of the first `n` sub-parts of `p`. */
  function WalkChildren(p: Part, n: nat): seq<Part>
    requires n <= |Children(p)|
    decreases p, n
  {
    if n == 0 then [] else WalkChildren(p, n - 1) + Walk(Children(p)[n - 1])
  }

  /** Python's parser gives a list payload exactly to parts of the multipart and message main types,
      so a text part always carries bytes. */
  predicate NodeOk(q: Part) {
    q.body.Multi? <==> (IsPrefix("multipart/", q.contentType) || IsPrefix("message/", q.contentType))
  }

  predicate IsPrefix(pre: string, s: string) { |pre| <= |s| && s[..|pre|] == pre }

  /** Every part of the message is as the parser builds it. */
  predicate WellFormed(p: Part) {
    forall q :: q in Walk(p) ==> NodeOk(q)
  }

  /** A part met during a walk has its whole walk inside the enclosing one. */
  lemma {:induction false} WalkContainsSubwalk(p: Part, q: Part)
    requires q in Walk(p)
    ensures forall x :: x in Walk(q) ==> x in Walk(p)
    decreases p, |Children(p)| + 1
  {
    if q != p {
      WalkChildrenContainsSubwalk(p, |Children(p)|, q);
    }
  }

  lemma {:induction false} WalkChildrenContainsSubwalk(p: Part, n: nat, q: Part)
    requires n <= |Children(p)|
    requires q in WalkChildren(p, n)
    ensures forall x :: x in Walk(q) ==> x in WalkChildren(p, n)
    decreases p, n
  {
    var init := WalkChildren(p, n - 1);
    var c := Children(p)[n - 1];
    if q in init {
      WalkChildrenContainsSubwalk(p, n - 1, q);
    } else {
      assert q in Walk(c);
      WalkContainsSubwalk(c, q);
    }
  }

  /** The sub-messages of a walked part are well formed when the whole message is. */
  lemma ChildWellFormed(p: Part, q: Part, i: nat)
    requires WellFormed(p) && q in Walk(p) && i < |Children(q)|
    ensures WellFormed(Children(q)[i])
  {
    var c := Children(q)[i];
    WalkContainsSubwalk(p, q);
    ChildInWalk(q, i);
    WalkContainsSubwalk(q, c);
  }

  lemma ChildInWalk(q: Part, i: nat)
    requires i < |Children(q)|
    ensures Children(q)[i] in Walk(q)
  {
    WalkChildrenHasChild(q, |Children(q)|, i);
  }

  lemma {:induction false} WalkChildrenHasChild(q: Part, n: nat, i: nat)
    requires i < n <= |Children(q)|
    ensures Children(q)[i] in WalkChildren(q, n)
    decreases n
  {
    if i < n - 1 {
      WalkChildrenHasChild(q, n - 1, i);
    } else {
      assert Walk(Children(q)[i])[0] == Children(q)[i];
    }
  }
}
