/** The MCP header value codec: the client's encoder and the server's decoder. */
module HeaderCodec {
  import opened Wrappers
  import opened Text
  import opened Utf8
  import opened Base64

  const PREFIX := "=?base64?"
  const SUFFIX := "?="

  /** The one value whose delimiters overlap. */
  const OVERLAP := "=?base64?="

  datatype ProtocolError = MalformedEncoding | InvalidCharacters

  predicate Printable(c: char) {
    0x20 <= c as int <= 0x7E
  }

  predicate AllPrintable(s: string) {
    forall c :: c in s ==> Printable(c)
  }

  /** `=?base64?`, then anything but a newline, then `?=`. */
  predicate SentinelBody(s: string) {
    && |s| >= |PREFIX| + |SUFFIX|
    && StartsWith(s, PREFIX) && EndsWith(s, SUFFIX)
    && '\n' !in s[|PREFIX|..|s| - |SUFFIX|]
  }

  /** The regular expression's `$` also matches before one final newline. */
  predicate SentinelMatches(s: string) {
    SentinelBody(s) || (s != "" && s[|s| - 1] == '\n' && SentinelBody(s[..|s| - 1]))
  }

  function EncodeHeader(value: string): string {
    if value != "" && !SentinelMatches(value) && AllPrintable(value) && value == Strip(value)
    then value
    else PREFIX + EncodeBase64(Utf8.Encode(value)) + SUFFIX
  }

  /** Python's `value[9:-2]`: empty when the bounds cross. */
  function Inner(value: string): string {
    if |PREFIX| + |SUFFIX| <= |value| then value[|PREFIX|..|value| - |SUFFIX|] else ""
  }

  function DecodeHeader(value: string): Result<string, ProtocolError> {
    if StartsWith(value, PREFIX) && EndsWith(value, SUFFIX) then
      var bytes := DecodeBase64(Inner(value));
      if bytes.None? then Err(MalformedEncoding)
      else
        var text := Utf8.Decode(bytes.value);
        if text.None? then Err(MalformedEncoding) else Ok(text.value)
    else if !AllPrintable(value) then Err(InvalidCharacters)
    else Ok(value)
  }

  predicate SentEncoded(value: string) {
    !(value != "" && !SentinelMatches(value) && AllPrintable(value) && value == Strip(value))
  }

  lemma WrappedDecodes(value: string)
    ensures var wrapped := PREFIX + EncodeBase64(Utf8.Encode(value)) + SUFFIX;
            && StartsWith(wrapped, PREFIX) && EndsWith(wrapped, SUFFIX)
            && Inner(wrapped) == EncodeBase64(Utf8.Encode(value))
            && DecodeHeader(wrapped) == Ok(value)
  {
    DecodeEncodeBase64(Utf8.Encode(value));
    DecodeEncode(value);
  }

  /** A printable value that looks wrapped to the decoder is a sentinel, or the overlap. */
  lemma WrappedIsSentinelOrOverlap(value: string)
    requires AllPrintable(value) && StartsWith(value, PREFIX) && EndsWith(value, SUFFIX)
    ensures SentinelMatches(value) || value == OVERLAP
  {
    if |value| >= |PREFIX| + |SUFFIX| {
      var middle := value[|PREFIX|..|value| - |SUFFIX|];
      assert forall c :: c in middle ==> c in value && Printable(c);
      assert !Printable('\n');
    } else {
      assert value[..9] == PREFIX && value[|value| - 2..] == SUFFIX;
      assert value[8] == PREFIX[8];
      assert value[|value| - 1] == SUFFIX[1];
      assert value == value[..9] + value[9..];
    }
  }

  /** Decoding the encoded form gives back every value except the overlapping literal, which
      comes back empty. */
  lemma RoundTripExactly(value: string)
    ensures DecodeHeader(EncodeHeader(value)) == Ok(value) <==> value != OVERLAP
    ensures DecodeHeader(EncodeHeader(OVERLAP)) == Ok("")
  {
    WrappedDecodes(value);
    OverlapIsLost();
    if !SentEncoded(value) && StartsWith(value, PREFIX) && EndsWith(value, SUFFIX) {
      WrappedIsSentinelOrOverlap(value);
    }
  }

  lemma ShortIsNoSentinel(value: string)
    requires |value| < |PREFIX| + |SUFFIX|
    ensures !SentinelMatches(value)
  {
  }

  lemma NothingToStrip(value: string)
    requires value != "" && !IsSpace(value[0]) && !IsSpace(value[|value| - 1])
    ensures Strip(value) == value
  {
  }

  lemma SentRaw(value: string)
    requires value != "" && !SentinelMatches(value) && AllPrintable(value) && value == Strip(value)
    ensures EncodeHeader(value) == value
  {
  }

  lemma EmptyDecodes()
    ensures DecodeBase64("") == Some([]) && Utf8.Decode([]) == Some("")
  {
  }

  /** Delimiters that overlap hold nothing between them. */
  lemma ShortIsEmpty(value: string)
    requires StartsWith(value, PREFIX) && EndsWith(value, SUFFIX) && |value| < |PREFIX| + |SUFFIX|
    ensures DecodeHeader(value) == Ok("")
  {
    EmptyDecodes();
  }

  lemma OverlapIsLost()
    ensures EncodeHeader(OVERLAP) == OVERLAP && DecodeHeader(OVERLAP) == Ok("")
  {
    assert StartsWith(OVERLAP, PREFIX) by { assert OVERLAP[..9] == PREFIX; }
    assert EndsWith(OVERLAP, SUFFIX) by { assert OVERLAP[8..] == SUFFIX; }
    ShortIsEmpty(OVERLAP);
    OverlapIsRaw();
  }

  lemma OverlapIsPrintable()
    ensures AllPrintable(OVERLAP)
  {
  }

  lemma OverlapIsRaw()
    ensures EncodeHeader(OVERLAP) == OVERLAP
  {
    ShortIsNoSentinel(OVERLAP);
    NothingToStrip(OVERLAP);
    OverlapIsPrintable();
    SentRaw(OVERLAP);
  }

  /** What is sent is always a legal header value: printable ASCII, not empty, and without
      leading or trailing white space. */
  lemma EncodedIsHeaderSafe(value: string)
    ensures EncodeHeader(value) != "" && AllPrintable(EncodeHeader(value))
    ensures EncodeHeader(value) == Strip(EncodeHeader(value))
  {
    if SentEncoded(value) {
      EncodedIsPrintable(Utf8.Encode(value));
      var middle := EncodeBase64(Utf8.Encode(value));
      var sent := PREFIX + middle + SUFFIX;
      assert sent[0] == '=' && sent[|sent| - 1] == '=';
      assert LStrip(sent) == sent && RStrip(sent) == sent;
      assert forall c :: c in PREFIX ==> Printable(c);
      assert forall c :: c in SUFFIX ==> Printable(c);
      assert forall c :: c in sent ==> c in PREFIX || c in middle || c in SUFFIX;
    }
  }

  /** Different values are never sent alike. */
  lemma EncoderIsInjective(a: string, b: string)
    requires EncodeHeader(a) == EncodeHeader(b)
    ensures a == b
  {
    RoundTripExactly(a);
    RoundTripExactly(b);
    if a == OVERLAP || b == OVERLAP {
      OverlapIsLost();
      var other := if a == OVERLAP then b else a;
      if SentEncoded(other) {
        assert |PREFIX + EncodeBase64(Utf8.Encode(other)) + SUFFIX| >= 11;
      }
    }
  }

  /** A decoder result came from the raw value or from the only text with that wrapped form. */
  lemma DecodedExactly(value: string, text: string)
    ensures DecodeHeader(value) == Ok(text) <==>
              if StartsWith(value, PREFIX) && EndsWith(value, SUFFIX)
              then DecodeBase64(Inner(value)) == Some(Utf8.Encode(text))
              else value == text && AllPrintable(value)
  {
    if StartsWith(value, PREFIX) && EndsWith(value, SUFFIX) {
      DecodeEncode(text);
      var bytes := DecodeBase64(Inner(value));
      if bytes.Some? && Utf8.Decode(bytes.value).Some? {
        EncodeDecode(bytes.value);
      }
    }
  }
}
