/**
 * Decoding a message part's payload bytes into text: the list of candidate
 * encodings and the first-success probing of `decode_payload`.
 */
module Codec {
  import opened Wrappers

  type Bytes = seq<bv8>

  /** What `bytes.decode(name)` does with one codec name: it returns text,
      raises UnicodeDecodeError (`Malformed`), or raises LookupError because
      no codec carries that name (`UnknownCodec`). */
  datatype DecodeOutcome = Decoded(text: string) | Malformed | UnknownCodec

  /** The codec library, left abstract: any total function of a codec name and bytes. */
  type Decoder = (string, Bytes) -> DecodeOutcome

  /** Errors nothing in the conversion catches; each one aborts it. */
  datatype Fatal =
    | UnknownEncoding(name: string)     // LookupError while probing payload encodings
    | UndecodableHeader(codec: string)  // any decode error inside a header value
    | MissingHeader(field: string)      // one of the four displayed fields is absent
    | NoPayload                         // a payload was asked of a multipart container

  /** The fixed fallback encodings, in priority order. */
  const Fallbacks: seq<string> := ["utf-8", "windows-1252", "latin-1", "utf-16", "ISO-8859-15"]

  predicate NoDuplicates(xs: seq<string>) {
    forall i, j :: 0 <= i < j < |xs| ==> xs[i] != xs[j]
  }

  lemma FallbacksAreDistinct()
    ensures NoDuplicates(Fallbacks)
  {
    assert Fallbacks[0][0] == 'u' && Fallbacks[1][0] == 'w' && Fallbacks[2][0] == 'l';
    assert Fallbacks[3][0] == 'u' && Fallbacks[4][0] == 'I';
    assert |Fallbacks[0]| == 5 && |Fallbacks[3]| == 6;
  }

  /** `xs` with every occurrence of `x` dropped and the rest kept in order. */
  function Without(xs: seq<string>, x: string): (r: seq<string>)
    ensures forall y :: y in r <==> y in xs && y != x
    ensures NoDuplicates(xs) ==> NoDuplicates(r)
    ensures x !in xs ==> r == xs
  {
    if |xs| == 0 then []
    else
      var rest := Without(xs[1..], x);
      assert NoDuplicates(xs) ==> NoDuplicates(xs[1..]) && xs[0] !in xs[1..];
      if xs[0] == x then rest else [xs[0]] + rest
  }

  /** Python's `list.remove`: drop the first occurrence of `x`. */
  function RemoveFirst(xs: seq<string>, x: string): (r: seq<string>)
    requires x in xs
    ensures |r| == |xs| - 1
  {
    if xs[0] == x then xs[1..] else [xs[0]] + RemoveFirst(xs[1..], x)
  }

  /** On a list without duplicates, removing the first occurrence removes every occurrence. */
  lemma {:induction false} RemoveFirstIsWithout(xs: seq<string>, x: string)
    requires x in xs && NoDuplicates(xs)
    ensures RemoveFirst(xs, x) == Without(xs, x)
  {
    assert NoDuplicates(xs[1..]);
    if xs[0] != x {
      RemoveFirstIsWithout(xs[1..], x);
    }
  }

  /** The encodings `decode_payload` tries, in order: the hint (when there is
      one) moved to the front of the fallback list. */
  function Candidates(hint: Option<string>): (r: seq<string>)
    ensures hint.None? ==> r == Fallbacks
    ensures hint.Some? ==> r == [hint.value] + Without(Fallbacks, hint.value)
    ensures hint.Some? ==> |r| == if hint.value in Fallbacks then 5 else 6
    ensures NoDuplicates(r)
    ensures forall e :: e in Fallbacks ==> e in r
  {
    FallbacksAreDistinct();
    match hint
    case None => Fallbacks
    case Some(h) =>
      if h in Fallbacks then
        RemoveFirstIsWithout(Fallbacks, h);
        [h] + RemoveFirst(Fallbacks, h)
      else
        [h] + Fallbacks
  }

  /** Every candidate before index `i` raised UnicodeDecodeError. */
  predicate MalformedBefore(cands: seq<string>, payload: Bytes, decode: Decoder, i: int)
    requires 0 <= i <= |cands|
  {
    forall j :: 0 <= j < i ==> decode(cands[j], payload).Malformed?
  }

  /** The probing loop: the outcome of the first candidate that does not raise
      UnicodeDecodeError decides the result; `None` when every candidate does. */
  function TryEach(cands: seq<string>, payload: Bytes, decode: Decoder): (r: Result<Option<string>, Fatal>)
    ensures r == Success(None) <==> MalformedBefore(cands, payload, decode, |cands|)
    ensures forall i :: 0 <= i < |cands| && MalformedBefore(cands, payload, decode, i) && decode(cands[i], payload).Decoded?
                        ==> r == Success(Some(decode(cands[i], payload).text))
    ensures forall i :: 0 <= i < |cands| && MalformedBefore(cands, payload, decode, i) && decode(cands[i], payload).UnknownCodec?
                        ==> r == Failure(UnknownEncoding(cands[i]))
    decreases |cands|
  {
    if |cands| == 0 then Success(None)
    else
      match decode(cands[0], payload)
      case Decoded(t) => Success(Some(t))
      case UnknownCodec => Failure(UnknownEncoding(cands[0]))
      case Malformed =>
        var r := TryEach(cands[1..], payload, decode);
        assert forall i :: 1 <= i <= |cands| ==>
          (MalformedBefore(cands, payload, decode, i) <==> MalformedBefore(cands[1..], payload, decode, i - 1));
        r
  }

  /** `decode_payload`: `payload` is what `get_payload(decode=True)` returns,
      `None` for a multipart container (whose `.decode` then raises). */
  function DecodePayload(payload: Option<Bytes>, hint: Option<string>, decode: Decoder): (r: Result<Option<string>, Fatal>)
    ensures payload.None? ==> r == Failure(NoPayload)
    ensures payload.Some? ==>
      var cands := Candidates(hint);
      && (r == Success(None) <==> MalformedBefore(cands, payload.value, decode, |cands|))
      && (forall i :: 0 <= i < |cands| && MalformedBefore(cands, payload.value, decode, i) && decode(cands[i], payload.value).Decoded?
                      ==> r == Success(Some(decode(cands[i], payload.value).text)))
      && (forall i :: 0 <= i < |cands| && MalformedBefore(cands, payload.value, decode, i) && decode(cands[i], payload.value).UnknownCodec?
                      ==> r == Failure(UnknownEncoding(cands[i])))
    ensures payload.Some? && hint.Some? && decode(hint.value, payload.value).Decoded?
            ==> r == Success(Some(decode(hint.value, payload.value).text))
  {
    match payload
    case None => Failure(NoPayload)
    case Some(bytes) =>
      var r := TryEach(Candidates(hint), bytes, decode);
      assert hint.Some? ==> MalformedBefore(Candidates(hint), bytes, decode, 0);
      r
  }

  /** Since latin-1 maps every byte to a character, "no decoding succeeded"
      cannot happen: the `None` result needs a latin-1 codec that fails. */
  lemma {:induction false} LatinOneMakesDecodeTotal(payload: Bytes, hint: Option<string>, decode: Decoder)
    requires decode("latin-1", payload).Decoded?
    ensures DecodePayload(Some(payload), hint, decode) != Success(None)
  {
    var cands := Candidates(hint);
    assert "latin-1" in Fallbacks;
    var k :| 0 <= k < |cands| && cands[k] == "latin-1";
    assert !MalformedBefore(cands, payload, decode, |cands|) by {
      assert !decode(cands[k], payload).Malformed?;
    }
  }
}
