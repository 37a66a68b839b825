/**
 * The body part of the document: `parse_body` gathers the decoded
 * `text/plain` parts in walk order and splits the text into paragraphs at
 * each newline.
 */
module Body {
  import opened Wrappers
  import opened Codec
  import opened Mime

  /** Paragraphs joined back with newlines: the inverse of `Split`. */
  function Join(lines: seq<string>): string
    requires |lines| >= 1
  {
    if |lines| == 1 then lines[0] else lines[0] + "\n" + Join(lines[1..])
  }

  /** Prefixing the first line with a character prefixes the joined text. */
  lemma {:induction false} JoinPrepend(c: char, lines: seq<string>)
    requires |lines| >= 1
    ensures Join([[c] + lines[0]] + lines[1..]) == [c] + Join(lines)
  {
    var lines' := [[c] + lines[0]] + lines[1..];
    assert lines'[1..] == lines[1..];
    if |lines| > 1 {
      assert ([c] + lines[0]) + "\n" + Join(lines[1..]) == [c] + (lines[0] + "\n" + Join(lines[1..]));
    }
  }

  /** An empty first line contributes just its newline. */
  lemma {:induction false} JoinEmptyFirst(lines: seq<string>)
    requires |lines| >= 1
    ensures Join([""] + lines) == "\n" + Join(lines)
  {
    assert ([""] + lines)[1..] == lines;
  }

  /** Python's `text.split("\n")`. */
  function Split(s: string): (r: seq<string>)
    ensures |r| >= 1
    decreases |s|
  {
    if |s| == 0 then [""]
    else
      var rest := Split(s[1..]);
      if s[0] == '\n' then [""] + rest else [[s[0]] + rest[0]] + rest[1..]
  }

  /** One line per newline plus one, no line holds a newline, and joining
      the lines with newlines gives the text back. */
  lemma {:induction false} SplitProperties(s: string)
    ensures |Split(s)| == multiset(s)['\n'] + 1
    ensures forall i :: 0 <= i < |Split(s)| ==> '\n' !in Split(s)[i]
    ensures Join(Split(s)) == s
    decreases |s|
  {
    if |s| > 0 {
      assert s == [s[0]] + s[1..];
      var rest := Split(s[1..]);
      SplitProperties(s[1..]);
      if s[0] == '\n' {
        JoinEmptyFirst(rest);
        assert Split(s)[1..] == rest;
      } else {
        JoinPrepend(s[0], rest);
        var r := Split(s);
        assert r[1..] == rest[1..];
        assert '\n' !in r[0] by { assert r[0] == [s[0]] + rest[0]; }
        forall i | 1 <= i < |r| ensures '\n' !in r[i] { assert r[i] == rest[i]; }
      }
    }
  }

  /** Splitting text built by `Join` from newline-free lines gives those lines back. */
  lemma {:induction false} SplitJoin(lines: seq<string>)
    requires |lines| >= 1
    requires forall i :: 0 <= i < |lines| ==> '\n' !in lines[i]
    ensures Split(Join(lines)) == lines
    decreases |lines|, |lines[0]|
  {
    var head := lines[0];
    if |head| > 0 {
      var lines' := [head[1..]] + lines[1..];
      assert lines'[1..] == lines[1..];
      assert head == [head[0]] + head[1..];
      assert head[0] != '\n' by { assert head[0] in head; }
      forall i | 0 <= i < |lines'| ensures '\n' !in lines'[i] {
        if i > 0 { assert lines'[i] == lines[i]; }
      }
      SplitJoin(lines');
      JoinPrepend(head[0], lines');
      assert [[head[0]] + lines'[0]] + lines'[1..] == lines;
      var s := Join(lines);
      assert s[1..] == Join(lines');
    } else if |lines| > 1 {
      forall i | 0 <= i < |lines| - 1 ensures '\n' !in lines[1..][i] { assert lines[1..][i] == lines[i + 1]; }
      SplitJoin(lines[1..]);
      assert lines == [""] + lines[1..];
      JoinEmptyFirst(lines[1..]);
      var s := Join(lines);
      assert s[1..] == Join(lines[1..]);
    }
  }

  /** The decode of one part with the header-derived hint. */
  function DecodePart(p: Part, hint: Option<string>, decode: Decoder): Result<Option<string>, Fatal> {
    DecodePayload(PayloadOf(p), hint, decode)
  }

  /** What one walked part adds to a multipart body: the decode of a
      `text/plain` part, nothing when it is another type or fails to decode. */
  function PartText(p: Part, hint: Option<string>, decode: Decoder): (r: Result<string, Fatal>)
    ensures p.contentType != "text/plain" ==> r == Success("")
    ensures p.contentType == "text/plain" ==> (r.Failure? <==> DecodePart(p, hint, decode).Failure?)
    ensures p.contentType == "text/plain" && DecodePart(p, hint, decode).Success?
            ==> r.value == DecodePart(p, hint, decode).value.GetOr("")
  {
    if p.contentType != "text/plain" then Success("")
    else
      var d :- DecodePart(p, hint, decode);
      Success(d.GetOr(""))
  }

  /** The loop over `walk()` that appends each part's text to `body`, for any
      per-part `text`; the first part whose text aborts aborts the loop. */
  function Concat(parts: seq<Part>, text: Part -> Result<string, Fatal>): (r: Result<string, Fatal>)
    ensures r.Success? <==> forall i :: 0 <= i < |parts| ==> text(parts[i]).Success?
    decreases |parts|
  {
    if |parts| == 0 then Success("")
    else
      var init := parts[..|parts| - 1];
      assert forall i :: 0 <= i < |init| ==> init[i] == parts[i];
      var body :- Concat(init, text);
      var t :- text(parts[|parts| - 1]);
      Success(body + t)
  }

  /** Appending parts appends their texts, in walk order. */
  lemma {:induction false} ConcatAppend(a: seq<Part>, b: seq<Part>, text: Part -> Result<string, Fatal>)
    requires Concat(a, text).Success? && Concat(b, text).Success?
    ensures Concat(a + b, text) == Success(Concat(a, text).value + Concat(b, text).value)
    decreases |b|
  {
    if |b| == 0 {
      assert a + b == a;
      assert Concat(a, text).value + "" == Concat(a, text).value;
    } else {
      var b', last := b[..|b| - 1], b[|b| - 1];
      assert b == b' + [last];
      assert a + b == (a + b') + [last];
      assert (a + b)[..|a + b| - 1] == a + b';
      ConcatAppend(a, b', text);
      var ta, tb', t := Concat(a, text).value, Concat(b', text).value, text(last).value;
      assert (ta + tb') + t == ta + (tb' + t);
    }
  }

  /** A single part contributes exactly its own text. */
  lemma ConcatSingle(p: Part, text: Part -> Result<string, Fatal>)
    ensures Concat([p], text) == text(p)
  {
    assert [p][..0] == [];
    if text(p).Success? {
      assert "" + text(p).value == text(p).value;
    }
  }

  /** The text of a multipart body: every walked part's `PartText`, in order. */
  function PlainText(parts: seq<Part>, hint: Option<string>, decode: Decoder): (r: Result<string, Fatal>)
    ensures r.Success? <==> forall i :: 0 <= i < |parts| ==> PartText(parts[i], hint, decode).Success?
  {
    Concat(parts, p => PartText(p, hint, decode))
  }

  /** Appending parts appends their texts, in walk order. */
  lemma PlainTextAppend(a: seq<Part>, b: seq<Part>, hint: Option<string>, decode: Decoder)
    requires PlainText(a, hint, decode).Success? && PlainText(b, hint, decode).Success?
    ensures PlainText(a + b, hint, decode) == Success(PlainText(a, hint, decode).value + PlainText(b, hint, decode).value)
  {
    ConcatAppend(a, b, p => PartText(p, hint, decode));
  }

  /** A single part contributes exactly its own text. */
  lemma PlainTextSingle(p: Part, hint: Option<string>, decode: Decoder)
    ensures PlainText([p], hint, decode) == PartText(p, hint, decode)
  {
    ConcatSingle(p, p => PartText(p, hint, decode));
  }

  /** The whole body text before it is split: the walk of a multipart
      message, or the single part's decode with "" when nothing decodes. */
  function BodyText(root: Part, hint: Option<string>, decode: Decoder): (r: Result<string, Fatal>)
    ensures IsMultipart(root) ==> r == PlainText(Walk(root), hint, decode)
    ensures !IsMultipart(root) ==> (r.Failure? <==> DecodePart(root, hint, decode).Failure?)
    ensures !IsMultipart(root) && r.Success? ==> r.value == DecodePart(root, hint, decode).value.GetOr("")
  {
    if IsMultipart(root) then PlainText(Walk(root), hint, decode)
    else
      var d :- DecodePart(root, hint, decode);
      Success(d.GetOr(""))
  }

  /** `parse_body`: one paragraph per line of the body text. */
  function ParseBody(root: Part, hint: Option<string>, decode: Decoder): (r: Result<seq<string>, Fatal>)
    ensures r.Success? <==> BodyText(root, hint, decode).Success?
    ensures r.Success? ==> |r.value| == multiset(BodyText(root, hint, decode).value)['\n'] + 1
    ensures r.Success? ==> Join(r.value) == BodyText(root, hint, decode).value
    ensures r.Success? ==> forall i :: 0 <= i < |r.value| ==> '\n' !in r.value[i]
  {
    var body :- BodyText(root, hint, decode);
    SplitProperties(body);
    Success(Split(body))
  }
}
