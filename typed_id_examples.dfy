/**
 * The crate's own test cases (src/lib.rs, module `test_macros`), stated over
 * the model, plus two inputs that show how lenient parsing is.
 */
module TypedIdExamples {
  import opened Utf8Text
  import opened TypedId

  /** The prefix `"im"` used throughout the tests, as UTF-8. */
  function Im(): (p: Bytes)
    ensures |p| == 2
  {
    EncodeAscii("im")
  }

  /** `prefixid!("im")`: 24 bytes that begin with `im_`. */
  lemma DefaultSizeFormat(segment: string)
    requires IsSegment(segment, DEFAULT_SIZE)
    ensures |PrefixId(Im(), segment)| == 24
    ensures PrefixId(Im(), segment)[..3] == EncodeAscii("im_")
  {
  }

  /** `prefixid!("im", 10)`: 13 bytes that begin with `im_`. */
  lemma SizedFormat(segment: string)
    requires IsSegment(segment, 10)
    ensures |PrefixId(Im(), segment, 10)| == 13
    ensures PrefixId(Im(), segment, 10)[..3] == EncodeAscii("im_")
  {
  }

  /** `create_id!(ImId, "im")` then `ImId::new()`: 24 bytes, beginning `im_`. */
  lemma DefaultKindNew(segment: string)
    requires IsSegment(segment, 21)
    ensures |New(Kind(Im()), segment).AsStr()| == 24
    ensures New(Kind(Im()), segment).AsStr()[..3] == EncodeAscii("im_")
  {
  }

  /** `create_id!(ImId, "im", 10)` then `ImId::new()`: 13 bytes, beginning `im_`. */
  lemma SizedKindNew(segment: string)
    requires IsSegment(segment, 10)
    ensures |New(Kind(Im(), 10), segment).AsStr()| == 13
    ensures New(Kind(Im(), 10), segment).AsStr()[..3] == EncodeAscii("im_")
  {
  }

  /** `"im_123456789"` is one byte short for kind ("im", 10). */
  lemma RejectsShortText()
    ensures FromStr(Kind(Im(), 10), EncodeAscii("im_123456789")) == Err(InvalidSize)
  {
  }

  /** `"in_1234567890"` has the right length but the wrong prefix. */
  lemma RejectsWrongPrefix()
    ensures FromStr(Kind(Im(), 10), EncodeAscii("in_1234567890")) == Err(InvalidPrefix)
  {
    assert EncodeAscii("in_1234567890")[..2] != Im() by {
      assert EncodeAscii("in_1234567890")[1] != Im()[1];
    }
  }

  /** `"im_1234567890"` parses, and the identifier shows that text verbatim. */
  lemma AcceptsCanonicalText()
    ensures FromStr(Kind(Im(), 10), EncodeAscii("im_1234567890")).Ok?
    ensures FromStr(Kind(Im(), 10), EncodeAscii("im_1234567890")).value.AsStr()
            == EncodeAscii("im_1234567890")
  {
  }

  /** `"imX1234567890"` parses although no `_` follows the prefix: it is not of canonical shape. */
  lemma AcceptsMissingSeparator()
    ensures FromStr(Kind(Im(), 10), EncodeAscii("imX1234567890")).Ok?
    ensures !WellFormed(Kind(Im(), 10), EncodeAscii("imX1234567890"))
  {
    var s := EncodeAscii("imX1234567890");
    assert s[..2] == Im();
    assert s[..3] != Im() + [SEPARATOR] by {
      assert s[..3][2] != (Im() + [SEPARATOR])[2];
    }
  }

  /** `"im_12345678-0"` parses although `-` is not a `SAFE` symbol. */
  lemma AcceptsForeignSymbol()
    ensures FromStr(Kind(Im(), 10), EncodeAscii("im_12345678-0")).Ok?
    ensures !WellFormed(Kind(Im(), 10), EncodeAscii("im_12345678-0"))
  {
    var s := EncodeAscii("im_12345678-0");
    assert s[..2] == Im();
    SafeSymbols('-');
    assert !IsSafeByte(s[11]);
  }
}
