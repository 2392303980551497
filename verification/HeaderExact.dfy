/** The wire form of a header value, in its own characters. */
module HeaderExact {
  import opened Wrappers
  import opened Text
  import opened Utf8
  import opened Base64
  import opened Base64Wire
  import opened Base64Reader
  import opened HeaderCodec

  /** Printable ASCII that neither starts nor ends with a space. */
  predicate Neat(value: string) {
    && value != "" && value[0] != ' ' && value[|value| - 1] != ' '
    && forall k :: 0 <= k < |value| ==> ' ' <= value[k] <= '~'
  }

  /** Delimited, without overlap. */
  predicate Wrapped(value: string) {
    |value| >= 11 && value[..9] == "=?base64?" && value[|value| - 2..] == "?="
  }

  /** Delimited as the decoder sees it. */
  predicate Delimited(value: string) {
    |value| >= 9 && value[..9] == "=?base64?" && value[|value| - 2..] == "?="
  }

  lemma PrintableIs(value: string)
    ensures AllPrintable(value) <==> forall k :: 0 <= k < |value| ==> ' ' <= value[k] <= '~'
  {
    if AllPrintable(value) {
      forall k | 0 <= k < |value|
        ensures ' ' <= value[k] <= '~'
      {
        assert value[k] in value;
      }
    }
  }

  lemma PrintableSpace(c: char)
    requires ' ' <= c <= '~'
    ensures IsSpace(c) <==> c == ' '
  {
  }

  lemma EdgesStay(value: string)
    requires value != "" && value == Strip(value)
    ensures !IsSpace(value[0]) && !IsSpace(value[|value| - 1])
  {
    assert Strip(value)[0] == LStrip(value)[0];
  }

  lemma NeatIsStripped(value: string)
    requires Neat(value)
    ensures AllPrintable(value) && value == Strip(value)
  {
    PrintableIs(value);
    PrintableSpace(value[0]);
    PrintableSpace(value[|value| - 1]);
    NothingToStrip(value);
  }

  lemma StrippedIsNeat(value: string)
    requires value != "" && AllPrintable(value) && value == Strip(value)
    ensures Neat(value)
  {
    PrintableIs(value);
    EdgesStay(value);
    PrintableSpace(value[0]);
    PrintableSpace(value[|value| - 1]);
  }

  lemma NeatIs(value: string)
    ensures value != "" && AllPrintable(value) && value == Strip(value) <==> Neat(value)
  {
    if Neat(value) {
      NeatIsStripped(value);
    } else if value != "" && AllPrintable(value) && value == Strip(value) {
      StrippedIsNeat(value);
    }
  }

  lemma StartIs(value: string)
    ensures StartsWith(value, PREFIX) <==> |value| >= 9 && value[..9] == "=?base64?"
  {
  }

  lemma EndIs(value: string)
    ensures EndsWith(value, SUFFIX) <==> |value| >= 2 && value[|value| - 2..] == "?="
  {
  }

  lemma DelimitedIs(value: string)
    ensures StartsWith(value, PREFIX) && EndsWith(value, SUFFIX) <==> Delimited(value)
  {
    StartIs(value);
    EndIs(value);
  }

  lemma NoNewline(value: string)
    requires AllPrintable(value)
    ensures '\n' !in value
  {
    assert !Printable('\n');
  }

  lemma WrappedIs(value: string)
    requires Neat(value)
    ensures SentinelMatches(value) <==> Wrapped(value)
  {
    PrintableIs(value);
    NoNewline(value);
    StartIs(value);
    EndIs(value);
    assert value[|value| - 1] in value;
    if |value| >= 11 {
      assert forall c :: c in value[9..|value| - 2] ==> c in value;
    }
  }

  /** A value is sent as it is exactly when it is neat and not wrapped; every other value is sent
      between the delimiters, as the Base64 of its UTF-8 bytes. */
  lemma SentExactly(value: string)
    ensures EncodeHeader(value) ==
              if Neat(value) && !Wrapped(value) then value
              else "=?base64?" + EncodeBase64(Utf8.Encode(value)) + "?="
    ensures EncodeHeader(value) == value <==> Neat(value) && !Wrapped(value)
  {
    NeatIs(value);
    if Neat(value) {
      WrappedIs(value);
    }
    if !(Neat(value) && !Wrapped(value)) {
      LongerThan(value);
    }
  }

  lemma {:induction false} AtLeastAsLong(value: string)
    ensures |Utf8.Encode(value)| >= |value|
  {
    if value != "" {
      AtLeastAsLong(value[1..]);
    }
  }

  lemma LongerThan(value: string)
    ensures |"=?base64?" + EncodeBase64(Utf8.Encode(value)) + "?="| > |value|
  {
    AtLeastAsLong(value);
    EncodedLength(Utf8.Encode(value));
  }

  /** What stands between the delimiters spells the UTF-8 bytes of the text; nothing stands between
      delimiters that overlap. */
  predicate Spells(value: string, text: string) {
    SpelledBy(if |value| >= 11 then value[9..|value| - 2] else "", Utf8.Encode(text))
  }

  /** A delimited value decodes to a text exactly when it spells it. */
  lemma SpelledExactly(value: string, text: string)
    requires Delimited(value)
    ensures DecodeHeader(value) == Ok(text) <==> Spells(value, text)
  {
    DelimitedIs(value);
    DecodedExactly(value, text);
    DecodesExactly(Inner(value), Utf8.Encode(text));
  }

  /** A value is refused for its characters exactly when it is not delimited and has one that is no
      printable ASCII. */
  lemma InvalidExactly(value: string)
    ensures DecodeHeader(value) == Err(InvalidCharacters) <==>
              !Delimited(value) && exists k :: 0 <= k < |value| && !(' ' <= value[k] <= '~')
  {
    DelimitedIs(value);
    PrintableIs(value);
  }

  /** It is refused as malformed exactly when it is delimited and spells no text. */
  lemma MalformedExactly(value: string)
    ensures DecodeHeader(value) == Err(MalformedEncoding) <==>
              Delimited(value) && forall text: string :: !Spells(value, text)
  {
    DelimitedIs(value);
    if Delimited(value) {
      match DecodeHeader(value)
      case Ok(text) =>
        SpelledExactly(value, text);
      case Err(_) =>
        forall text: string
          ensures !Spells(value, text)
        {
          SpelledExactly(value, text);
        }
    }
  }
}
