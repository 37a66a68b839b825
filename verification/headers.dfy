/**
 * The header part of the document: `decode_headers` folds the segments of
 * one header value into text and an encoding, and `parse_headers` builds the
 * four "Field: value" paragraphs and the one encoding common to them.
 */
module Headers {
  import opened Wrappers
  import opened Codec
  import opened Mime

  /** The decoded text of a header and the encoding `decode_headers` reports for it. */
  datatype DecodedHeader = DecodedHeader(text: string, encoding: Option<string>)

  /** `encoding or "utf-8"`: a missing or empty charset means UTF-8. */
  function CodecName(charset: Option<string>): (r: string)
    ensures charset.None? || charset.value == "" ==> r == "utf-8"
    ensures charset.Some? && charset.value != "" ==> r == charset.value
  {
    if charset.None? || charset.value == "" then "utf-8" else charset.value
  }

  /** The text of one segment; bytes that do not decode abort the conversion. */
  function DecodeSegment(s: Segment, decode: Decoder): (r: Result<string, Fatal>)
    ensures s.Plain? ==> r == Success(s.text)
    ensures s.Encoded? ==> (r.Success? <==> decode(CodecName(s.charset), s.data).Decoded?)
    ensures s.Encoded? && r.Success? ==> r.value == decode(CodecName(s.charset), s.data).text
  {
    match s
    case Plain(t) => Success(t)
    case Encoded(data, charset) =>
      match decode(CodecName(charset), data)
      case Decoded(t) => Success(t)
      case _ => Failure(UndecodableHeader(CodecName(charset)))
  }

  /** Every segment's text can be computed. */
  predicate AllSucceed(segs: seq<Segment>, text: Segment -> Result<string, Fatal>) {
    forall i :: 0 <= i < |segs| ==> text(segs[i]).Success?
  }

  /** There is no encoded segment after index `i`. */
  predicate PlainAfter(segs: seq<Segment>, i: int) {
    forall j :: 0 <= j < |segs| && j > i ==> segs[j].Plain?
  }

  /** The loop of `decode_headers` for any per-segment `text`: it appends each
      segment's text and lets each bytes segment overwrite the encoding. */
  function FoldSegments(segs: seq<Segment>, text: Segment -> Result<string, Fatal>): (r: Result<DecodedHeader, Fatal>)
    ensures r.Success? <==> AllSucceed(segs, text)
    decreases |segs|
  {
    if |segs| == 0 then Success(DecodedHeader("", None))
    else
      var init := segs[..|segs| - 1];
      var last := segs[|segs| - 1];
      assert forall i :: 0 <= i < |init| ==> init[i] == segs[i];
      match FoldSegments(init, text)
      case Failure(e) => Failure(e)
      case Success(h) =>
        match text(last)
        case Failure(e) => Failure(e)
        case Success(t) =>
          Success(DecodedHeader(h.text + t, if last.Encoded? then last.charset else h.encoding))
  }

  lemma AllSucceedInit(segs: seq<Segment>, text: Segment -> Result<string, Fatal>)
    requires |segs| > 0 && AllSucceed(segs, text)
    ensures AllSucceed(segs[..|segs| - 1], text)
    ensures text(segs[|segs| - 1]).Success?
  {
    var init := segs[..|segs| - 1];
    forall i | 0 <= i < |init| ensures text(init[i]).Success? {
      assert init[i] == segs[i];
    }
  }

  /** One step of the loop: appending a segment extends the text and, for a
      bytes segment, replaces the encoding. */
  lemma {:induction false} FoldSnoc(init: seq<Segment>, last: Segment, text: Segment -> Result<string, Fatal>)
    requires AllSucceed(init, text) && text(last).Success?
    ensures FoldSegments(init + [last], text) ==
            Success(DecodedHeader(FoldSegments(init, text).value.text + text(last).value,
                                  if last.Encoded? then last.charset else FoldSegments(init, text).value.encoding))
  {
    assert (init + [last])[..|init|] == init;
  }

  lemma {:induction false} PlainAfterSnoc(init: seq<Segment>, last: Segment)
    ensures PlainAfter(init + [last], -1) <==> PlainAfter(init, -1) && last.Plain?
  {
    var b := init + [last];
    if PlainAfter(init, -1) && last.Plain? {
      forall j | 0 <= j < |b| ensures b[j].Plain? {
        if j < |init| { assert b[j] == init[j]; }
      }
    }
    if PlainAfter(b, -1) {
      assert b[|init|] == last;
      forall j | 0 <= j < |init| ensures init[j].Plain? {
        assert b[j] == init[j];
      }
    }
  }

  /** The fold reports the charset of the last bytes segment, and `None`
      when there is no bytes segment. */
  lemma {:induction false} FoldEncoding(segs: seq<Segment>, text: Segment -> Result<string, Fatal>)
    requires AllSucceed(segs, text)
    ensures PlainAfter(segs, -1) ==> FoldSegments(segs, text).value.encoding == None
    ensures forall i :: 0 <= i < |segs| && segs[i].Encoded? && PlainAfter(segs, i)
                        ==> FoldSegments(segs, text).value.encoding == segs[i].charset
    decreases |segs|
  {
    if |segs| > 0 {
      var init, last := segs[..|segs| - 1], segs[|segs| - 1];
      assert segs == init + [last];
      AllSucceedInit(segs, text);
      FoldEncoding(init, text);
      FoldSnoc(init, last, text);
      if last.Plain? {
        forall i | 0 <= i < |init| && PlainAfter(segs, i) ensures PlainAfter(init, i) {
          forall j | 0 <= j < |init| && j > i ensures init[j].Plain? { assert init[j] == segs[j]; }
        }
      }
    }
  }

  /** The fold of a concatenation concatenates the texts; the encoding is the
      second list's unless that list has no bytes segment. */
  lemma {:induction false} FoldAppend(a: seq<Segment>, b: seq<Segment>, text: Segment -> Result<string, Fatal>)
    requires FoldSegments(a, text).Success? && FoldSegments(b, text).Success?
    ensures FoldSegments(a + b, text).Success?
    ensures FoldSegments(a + b, text).value.text == FoldSegments(a, text).value.text + FoldSegments(b, text).value.text
    ensures FoldSegments(a + b, text).value.encoding ==
            if PlainAfter(b, -1) then FoldSegments(a, text).value.encoding else FoldSegments(b, text).value.encoding
    decreases |b|
  {
    if |b| == 0 {
      assert a + b == a;
      assert FoldSegments(a, text).value.text + "" == FoldSegments(a, text).value.text;
    } else {
      var b', last := b[..|b| - 1], b[|b| - 1];
      assert b == b' + [last];
      assert a + b == (a + b') + [last];
      assert (a + b)[..|a + b| - 1] == a + b';
      FoldAppend(a, b', text);
      var t := text(last).value;
      var ha, hb' := FoldSegments(a, text).value, FoldSegments(b', text).value;
      assert (ha.text + hb'.text) + t == ha.text + (hb'.text + t);
      PlainAfterSnoc(b', last);
    }
  }

  /** Every segment of the header decodes. */
  predicate AllDecode(segs: seq<Segment>, decode: Decoder) {
    forall i :: 0 <= i < |segs| ==> DecodeSegment(segs[i], decode).Success?
  }

  /** `decode_headers`. */
  function DecodeHeaders(segs: seq<Segment>, decode: Decoder): (r: Result<DecodedHeader, Fatal>)
    ensures r.Success? <==> AllDecode(segs, decode)
  {
    FoldSegments(segs, s => DecodeSegment(s, decode))
  }

  /** The reported encoding is the charset of the last bytes segment, and
      `None` when there is no bytes segment. */
  lemma DecodeHeadersEncoding(segs: seq<Segment>, decode: Decoder)
    requires AllDecode(segs, decode)
    ensures PlainAfter(segs, -1) ==> DecodeHeaders(segs, decode).value.encoding == None
    ensures forall i :: 0 <= i < |segs| && segs[i].Encoded? && PlainAfter(segs, i)
                        ==> DecodeHeaders(segs, decode).value.encoding == segs[i].charset
  {
    FoldEncoding(segs, s => DecodeSegment(s, decode));
  }

  /** Decoding a concatenation of segment lists concatenates the texts; the
      encoding is the second list's unless that list has no bytes segment. */
  lemma DecodeHeadersAppend(a: seq<Segment>, b: seq<Segment>, decode: Decoder)
    requires AllDecode(a, decode) && AllDecode(b, decode)
    ensures DecodeHeaders(a + b, decode).Success?
    ensures DecodeHeaders(a + b, decode).value.text == DecodeHeaders(a, decode).value.text + DecodeHeaders(b, decode).value.text
    ensures DecodeHeaders(a + b, decode).value.encoding ==
            if PlainAfter(b, -1) then DecodeHeaders(a, decode).value.encoding else DecodeHeaders(b, decode).value.encoding
  {
    FoldAppend(a, b, s => DecodeSegment(s, decode));
  }

  /** A one-segment header decodes to that segment's text. */
  lemma DecodeSingleSegment(s: Segment, decode: Decoder)
    requires DecodeSegment(s, decode).Success?
    ensures DecodeHeaders([s], decode) == Success(DecodedHeader(DecodeSegment(s, decode).value, if s.Encoded? then s.charset else None))
  {
    FoldSnoc([], s, s => DecodeSegment(s, decode));
    assert [] + [s] == [s];
    assert "" + DecodeSegment(s, decode).value == DecodeSegment(s, decode).value;
  }

  /** An illustrative instance of `DecodeHeadersEncoding`: the reported
      encoding is the last bytes segment's charset, even when that is `None`
      and an earlier segment named one. */
  lemma LastBytesSegmentWins(early: Bytes, late: Bytes, decode: Decoder)
    requires decode("utf-8", early).Decoded? && decode("utf-8", late).Decoded?
    ensures DecodeHeaders([Encoded(early, Some("utf-8")), Encoded(late, None)], decode).value.encoding == None
  {
    var segs := [Encoded(early, Some("utf-8")), Encoded(late, None)];
    assert PlainAfter(segs, 1);
    assert AllDecode(segs, decode);
    DecodeHeadersEncoding(segs, decode);
  }

  /** Python's `"".join(c for c in v if c not in ["<", ">"])`. */
  function StripBrackets(v: string): (r: string)
    ensures '<' !in r && '>' !in r
    ensures '<' !in v && '>' !in v ==> r == v
  {
    if |v| == 0 then ""
    else (if v[0] == '<' || v[0] == '>' then "" else [v[0]]) + StripBrackets(v[1..])
  }

  /** Every character other than '<' and '>' keeps its number of
      occurrences, and the brackets are all gone. */
  lemma {:induction false} StripBracketsCounts(v: string)
    ensures forall c :: c != '<' && c != '>' ==> multiset(StripBrackets(v))[c] == multiset(v)[c]
    ensures |StripBrackets(v)| == |v| - multiset(v)['<'] - multiset(v)['>']
    decreases |v|
  {
    if |v| > 0 {
      assert v == [v[0]] + v[1..];
      StripBracketsCounts(v[1..]);
      var h := if v[0] == '<' || v[0] == '>' then "" else [v[0]];
      assert multiset(StripBrackets(v)) == multiset(h) + multiset(StripBrackets(v[1..]));
    }
  }

  /** Removing brackets works character by character, so the characters
      that remain keep their order. */
  lemma {:induction false} StripBracketsAppend(a: string, b: string)
    ensures StripBrackets(a + b) == StripBrackets(a) + StripBrackets(b)
    decreases |a|
  {
    if |a| > 0 {
      var ab := a + b;
      assert ab[0] == a[0];
      assert ab[1..] == a[1..] + b;
      StripBracketsAppend(a[1..], b);
      var h := if a[0] == '<' || a[0] == '>' then "" else [a[0]];
      assert StripBrackets(ab) == h + StripBrackets(a[1..] + b);
      assert StripBrackets(a) == h + StripBrackets(a[1..]);
      assert h + (StripBrackets(a[1..]) + StripBrackets(b)) == (h + StripBrackets(a[1..])) + StripBrackets(b);
    } else {
      assert a + b == b;
    }
  }

  predicate IsAddressField(field: string) {
    field == "From" || field == "To"
  }

  predicate HasAddressMarkers(v: string) {
    '<' in v && '>' in v && '@' in v
  }

  /** The From/To clean-up of `parse_headers`. */
  function NormaliseAddress(field: string, v: string): (r: string)
    ensures !(IsAddressField(field) && HasAddressMarkers(v)) ==> r == v
    ensures IsAddressField(field) && HasAddressMarkers(v) ==> '<' !in r && '>' !in r
    ensures forall c :: c != '<' && c != '>' ==> multiset(r)[c] == multiset(v)[c]
    ensures IsAddressField(field) && HasAddressMarkers(v) ==> r == StripBrackets(v)
  {
    if IsAddressField(field) && HasAddressMarkers(v) then
      StripBracketsCounts(v);
      StripBrackets(v)
    else v
  }

  lemma NormaliseIdempotent(field: string, v: string)
    ensures NormaliseAddress(field, NormaliseAddress(field, v)) == NormaliseAddress(field, v)
  {
  }

  /** The distinct encodings in `encs` (Python's `set(encodings)`). */
  function Distinct(encs: seq<string>): set<string> {
    set e | e in encs
  }

  lemma SingletonSet(s: set<string>)
    requires |s| == 1
    ensures exists e :: s == {e}
  {
    var e :| e in s;
    assert |s - {e}| == 0;
  }

  /** The one encoding shared by every entry, or `None` when there are no
      entries or two distinct ones. */
  function CommonEncoding(encs: seq<string>): (r: Option<string>)
    ensures r.Some? ==> Distinct(encs) == {r.value}
    ensures r.None? ==> |Distinct(encs)| != 1
  {
    if |encs| > 0 && forall i :: 0 <= i < |encs| ==> encs[i] == encs[0] then
      assert Distinct(encs) == {encs[0]};
      Some(encs[0])
    else
      assert |Distinct(encs)| == 1 ==> false by {
        if |Distinct(encs)| == 1 {
          SingletonSet(Distinct(encs));
          var e :| Distinct(encs) == {e};
          assert forall i :: 0 <= i < |encs| ==> encs[i] in Distinct(encs);
        }
      }
      None
  }

  /** The fields shown, in the order shown. */
  const HeaderFields: seq<string> := ["Subject", "From", "To", "Date"]

  /** `decode_headers(message[field])`; a missing field makes `decode_header`
      raise, which aborts the conversion. */
  function DecodeField(headers: seq<HeaderField>, field: string, decode: Decoder): (r: Result<DecodedHeader, Fatal>)
    ensures Lookup(headers, field).None? ==> r == Failure(MissingHeader(field))
    ensures Lookup(headers, field).Some? ==> r == DecodeHeaders(Lookup(headers, field).value, decode)
  {
    match Lookup(headers, field)
    case None => Failure(MissingHeader(field))
    case Some(segs) => DecodeHeaders(segs, decode)
  }

  /** One paragraph of the header block. */
  function FieldParagraph(field: string, text: string): (r: string)
    ensures field + ": " <= r
  {
    field + ": " + NormaliseAddress(field, text)
  }

  /** `field` for each of `fields`, in order; the first failure aborts. */
  function MapFields(fields: seq<string>, field: string -> Result<DecodedHeader, Fatal>): (r: Result<seq<DecodedHeader>, Fatal>)
    ensures r.Success? <==> forall i :: 0 <= i < |fields| ==> field(fields[i]).Success?
    ensures r.Success? ==> |r.value| == |fields|
    ensures r.Success? ==> forall i :: 0 <= i < |fields| ==> r.value[i] == field(fields[i]).value
    decreases |fields|
  {
    if |fields| == 0 then Success([])
    else
      var d :- field(fields[0]);
      var rest :- MapFields(fields[1..], field);
      assert forall i :: 1 <= i < |fields| ==> fields[i] == fields[1..][i - 1];
      Success([d] + rest)
  }

  /** The decoded value of each of `fields`, in order; the first field that
      is missing or undecodable aborts. */
  function DecodeFields(headers: seq<HeaderField>, fields: seq<string>, decode: Decoder): (r: Result<seq<DecodedHeader>, Fatal>)
    ensures r.Success? <==> forall i :: 0 <= i < |fields| ==> DecodeField(headers, fields[i], decode).Success?
    ensures r.Success? ==> |r.value| == |fields|
    ensures r.Success? ==> forall i :: 0 <= i < |fields| ==> r.value[i] == DecodeField(headers, fields[i], decode).value
  {
    MapFields(fields, f => DecodeField(headers, f, decode))
  }

  /** The set of encodings, other than `None`, that the decoded values report. */
  function EncodingSet(ds: seq<DecodedHeader>): set<string> {
    set i | 0 <= i < |ds| && ds[i].encoding.Some? :: ds[i].encoding.value
  }

  lemma EncodingSetCons(ds: seq<DecodedHeader>)
    requires |ds| > 0
    ensures EncodingSet(ds) == EncodingSet(ds[1..]) + (if ds[0].encoding.Some? then {ds[0].encoding.value} else {})
  {
    var tail := ds[1..];
    forall x | x in EncodingSet(ds) ensures x in EncodingSet(tail) || ds[0].encoding == Some(x) {
      var i :| 0 <= i < |ds| && ds[i].encoding.Some? && ds[i].encoding.value == x;
      if i > 0 { assert tail[i - 1] == ds[i]; }
    }
    forall x | x in EncodingSet(tail) ensures x in EncodingSet(ds) {
      var i :| 0 <= i < |tail| && tail[i].encoding.Some? && tail[i].encoding.value == x;
      assert ds[i + 1] == tail[i];
    }
  }

  /** The encodings that are not `None`, in order: the `encodings` list of `parse_headers`. */
  function KnownEncodings(ds: seq<DecodedHeader>): (r: seq<string>)
    ensures Distinct(r) == EncodingSet(ds)
  {
    if |ds| == 0 then []
    else
      var rest := KnownEncodings(ds[1..]);
      EncodingSetCons(ds);
      if ds[0].encoding.Some? then
        assert Distinct([ds[0].encoding.value] + rest) == {ds[0].encoding.value} + Distinct(rest);
        [ds[0].encoding.value] + rest
      else rest
  }

  /** The set of encodings, other than `None`, that the four fields report
      when each is decoded on its own. */
  function ReportedEncodings(headers: seq<HeaderField>, decode: Decoder): set<string> {
    set i | 0 <= i < |HeaderFields| && DecodeField(headers, HeaderFields[i], decode).Success?
                                    && DecodeField(headers, HeaderFields[i], decode).value.encoding.Some?
          :: DecodeField(headers, HeaderFields[i], decode).value.encoding.value
  }

  lemma ReportedEncodingsOfFields(headers: seq<HeaderField>, decode: Decoder)
    ensures DecodeFields(headers, HeaderFields, decode).Success? ==>
              EncodingSet(DecodeFields(headers, HeaderFields, decode).value) == ReportedEncodings(headers, decode)
  {
    if DecodeFields(headers, HeaderFields, decode).Success? {
      var ds := DecodeFields(headers, HeaderFields, decode).value;
      forall i | 0 <= i < |HeaderFields| ensures ds[i] == DecodeField(headers, HeaderFields[i], decode).value { }
    }
  }

  /** The header paragraphs and the encoding every field agrees on, if any. */
  datatype HeaderStory = HeaderStory(paragraphs: seq<string>, encoding: Option<string>)

  /** `parse_headers`. */
  function ParseHeaders(headers: seq<HeaderField>, decode: Decoder): (r: Result<HeaderStory, Fatal>)
    ensures r.Success? <==> forall i :: 0 <= i < |HeaderFields| ==> DecodeField(headers, HeaderFields[i], decode).Success?
    ensures r.Success? ==> |r.value.paragraphs| == 4
    ensures r.Success? ==> forall i :: 0 <= i < 4 ==>
              r.value.paragraphs[i] == HeaderFields[i] + ": " + NormaliseAddress(HeaderFields[i], DecodeField(headers, HeaderFields[i], decode).value.text)
    ensures r.Success? && r.value.encoding.Some? ==> ReportedEncodings(headers, decode) == {r.value.encoding.value}
    ensures r.Success? && r.value.encoding.None? ==> |ReportedEncodings(headers, decode)| != 1
  {
    var ds :- DecodeFields(headers, HeaderFields, decode);
    ReportedEncodingsOfFields(headers, decode);
    var paragraphs := seq(|ds|, i requires 0 <= i < |ds| => FieldParagraph(HeaderFields[i], ds[i].text));
    Success(HeaderStory(paragraphs, CommonEncoding(KnownEncodings(ds))))
  }

  /** The header block depends only on what the four fields look up to. */
  lemma ParseHeadersDependsOnFields(h1: seq<HeaderField>, h2: seq<HeaderField>, decode: Decoder)
    requires forall i :: 0 <= i < |HeaderFields| ==> Lookup(h1, HeaderFields[i]) == Lookup(h2, HeaderFields[i])
    ensures ParseHeaders(h1, decode) == ParseHeaders(h2, decode)
  {
    assert DecodeFields(h1, HeaderFields, decode) == DecodeFields(h2, HeaderFields, decode) by {
      DecodeFieldsAgree(h1, h2, HeaderFields, decode);
    }
  }

  lemma {:induction false} DecodeFieldsAgree(h1: seq<HeaderField>, h2: seq<HeaderField>, fields: seq<string>, decode: Decoder)
    requires forall i :: 0 <= i < |fields| ==> Lookup(h1, fields[i]) == Lookup(h2, fields[i])
    ensures DecodeFields(h1, fields, decode) == DecodeFields(h2, fields, decode)
    decreases |fields|
  {
    if |fields| > 0 {
      assert forall i :: 0 <= i < |fields| - 1 ==> fields[1..][i] == fields[i + 1];
      DecodeFieldsAgree(h1, h2, fields[1..], decode);
      assert DecodeField(h1, fields[0], decode) == DecodeField(h2, fields[0], decode);
    }
  }

  /** The header block does not depend on the order of the message's
      header fields, as long as none of the four fields is repeated. */
  lemma ParseHeadersOrderIndependent(h1: seq<HeaderField>, h2: seq<HeaderField>, decode: Decoder)
    requires forall h :: h in h1 <==> h in h2
    requires forall i :: 0 <= i < |HeaderFields| ==> AtMostOnce(h1, HeaderFields[i]) && AtMostOnce(h2, HeaderFields[i])
    ensures ParseHeaders(h1, decode) == ParseHeaders(h2, decode)
  {
    forall i | 0 <= i < |HeaderFields|
      ensures Lookup(h1, HeaderFields[i]) == Lookup(h2, HeaderFields[i])
    {
      LookupOrderIndependent(h1, h2, HeaderFields[i]);
    }
    ParseHeadersDependsOnFields(h1, h2, decode);
  }
}
