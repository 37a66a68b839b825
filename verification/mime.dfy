/**
 * The parsed message the conversion reads: a tree of parts, visited in
 * `walk()` order, and header fields looked up by name. Parsing the message
 * bytes and decoding RFC 2047 encoded-words are done by Python's `email`
 * package; here their results are the input.
 */
module Mime {
  import opened Wrappers
  import opened Codec

  /** One element of the list `email.header.decode_header` returns: text it
      left alone, or bytes paired with the charset of their encoded-word
      (`None` for unencoded runs between encoded-words). */
  datatype Segment = Plain(text: string) | Encoded(data: Bytes, charset: Option<string>)

  /** A header field, its value given as the segments its decoding yields. */
  datatype HeaderField = HeaderField(name: string, value: seq<Segment>)

  /** A leaf part holds bytes; a multipart container holds sub-parts. */
  datatype Content = Leaf(payload: Bytes) | Multi(parts: seq<Part>)

  /** A part: its normalised content type (`get_content_type()`), its
      Content-Disposition header when present, and its content. */
  datatype Part = Part(contentType: string, disposition: Option<string>, content: Content)

  datatype Message = Message(headers: seq<HeaderField>, root: Part)

  /** `is_multipart()`. */
  predicate IsMultipart(p: Part) {
    p.content.Multi?
  }

  /** `get_payload(decode=True)`: the bytes of a leaf, `None` for a container. */
  function PayloadOf(p: Part): (r: Option<Bytes>)
    ensures r.Some? <==> !IsMultipart(p)
  {
    match p.content
    case Leaf(bytes) => Some(bytes)
    case Multi(_) => None
  }

  /** `get_content_maintype()`: the content type up to its first '/'. */
  function MainType(contentType: string): (r: string)
    ensures r <= contentType
    ensures '/' !in r
    ensures |r| < |contentType| ==> contentType[|r|] == '/'
  {
    if |contentType| == 0 || contentType[0] == '/' then ""
    else [contentType[0]] + MainType(contentType[1..])
  }

  /** `walk()`: the part itself, then the walk of each sub-part in order. */
  function Walk(p: Part): (r: seq<Part>)
    ensures |r| >= 1 && r[0] == p
    decreases p, 1
  {
    [p] + match p.content
          case Leaf(_) => []
          case Multi(parts) => WalkAll(parts)
  }

  function WalkAll(parts: seq<Part>): seq<Part>
    decreases parts, 0
  {
    if |parts| == 0 then [] else Walk(parts[0]) + WalkAll(parts[1..])
  }

  function LowerChar(c: char): char {
    if 'A' <= c <= 'Z' then (c as int + 32) as char else c
  }

  /** Header names compare case-insensitively (ASCII). */
  predicate SameName(a: string, b: string) {
    |a| == |b| && forall i :: 0 <= i < |a| ==> LowerChar(a[i]) == LowerChar(b[i])
  }

  /** `message[name]`: the value of the first field whose name matches, or `None`. */
  function Lookup(headers: seq<HeaderField>, name: string): (r: Option<seq<Segment>>)
    ensures r.None? <==> forall i :: 0 <= i < |headers| ==> !SameName(headers[i].name, name)
    ensures forall i :: 0 <= i < |headers| && SameName(headers[i].name, name)
                        && (forall j :: 0 <= j < i ==> !SameName(headers[j].name, name))
                        ==> r == Some(headers[i].value)
  {
    if |headers| == 0 then None
    else if SameName(headers[0].name, name) then Some(headers[0].value)
    else
      var r := Lookup(headers[1..], name);
      assert forall i :: 1 <= i < |headers| ==> headers[1..][i - 1] == headers[i];
      r
  }

  /** At most one field of `headers` carries `name`. */
  predicate AtMostOnce(headers: seq<HeaderField>, name: string) {
    forall i, j :: 0 <= i < j < |headers| && SameName(headers[i].name, name) ==> !SameName(headers[j].name, name)
  }

  /** When a name occurs at most once, the order of the fields does not
      change what a lookup finds. */
  lemma LookupOrderIndependent(h1: seq<HeaderField>, h2: seq<HeaderField>, name: string)
    requires forall h :: h in h1 <==> h in h2
    requires AtMostOnce(h1, name) && AtMostOnce(h2, name)
    ensures Lookup(h1, name) == Lookup(h2, name)
  {
    if i :| 0 <= i < |h1| && SameName(h1[i].name, name) {
      assert h1[i] in h2;
      var j :| 0 <= j < |h2| && h2[j] == h1[i];
      assert forall k :: 0 <= k < i ==> !SameName(h1[k].name, name);
      assert forall k :: 0 <= k < j ==> !SameName(h2[k].name, name);
    } else {
      forall j | 0 <= j < |h2| ensures !SameName(h2[j].name, name) {
        assert h2[j] in h1;
      }
    }
  }
}
