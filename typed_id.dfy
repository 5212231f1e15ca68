/**
 * Typed, prefixed identifiers of the form `<prefix>_<segment>` (src/lib.rs).
 *
 * The `create_id!` macro stamps out one identifier type per `(prefix, size)`
 * pair; here that pair is a `Kind` value and every identifier type is the one
 * datatype `Id`, a wrapper around the identifier's text. Texts are UTF-8
 * bytes, as Rust's `len` and `starts_with` see them.
 *
 * The random segment comes from a foreign generator. It is an input of the
 * model, constrained only by what the generator guarantees: `size` symbols,
 * each drawn from the alphabet `SAFE`.
 */
module TypedId {
  import opened Utf8Text

  /**
   * The 62 symbols a random segment is drawn from, in the source's order:
   * digits, then lower case, then upper case (one array literal there,
   * written here as its three runs).
   */
  const SAFE: seq<char> :=
    ['0', '1', '2', '3', '4', '5', '6', '7', '8', '9']
    + ['a', 'b', 'c', 'd', 'e', 'f', 'g', 'h', 'i', 'j', 'k', 'l', 'm',
       'n', 'o', 'p', 'q', 'r', 's', 't', 'u', 'v', 'w', 'x', 'y', 'z']
    + ['A', 'B', 'C', 'D', 'E', 'F', 'G', 'H', 'I', 'J', 'K', 'L', 'M',
       'N', 'O', 'P', 'Q', 'R', 'S', 'T', 'U', 'V', 'W', 'X', 'Y', 'Z']

  /** Segment length used when a caller gives none. */
  const DEFAULT_SIZE: nat := 21

  /** The byte of `'_'`, written between prefix and segment. */
  const SEPARATOR: byte := 0x5F

  /** The symbol at position `i` of the alphabet, by range: an independent description of `SAFE`. */
  function SymbolAt(i: nat): (c: char)
    requires i < 62
  {
    if i < 10 then ('0' as int + i) as char
    else if i < 36 then ('a' as int + (i - 10)) as char
    else ('A' as int + (i - 36)) as char
  }

  /** `SAFE` lists the digits, then the lower-case letters, then the upper-case letters. */
  lemma SafeLayout()
    ensures |SAFE| == 62
    ensures forall i :: 0 <= i < 62 ==> SAFE[i] == SymbolAt(i)
  {
  }

  /** `SAFE` is an alphabet of 62 pairwise-distinct ASCII symbols. */
  lemma SafeAlphabet()
    ensures |SAFE| == 62
    ensures forall i, j :: 0 <= i < j < |SAFE| ==> SAFE[i] != SAFE[j]
    ensures IsAscii(SAFE)
  {
    SafeLayout();
  }

  /** A character is in `SAFE` exactly when it is an ASCII digit or letter. */
  lemma SafeSymbols(c: char)
    ensures c in SAFE <==> ('0' <= c <= '9' || 'a' <= c <= 'z' || 'A' <= c <= 'Z')
  {
    SafeLayout();
    if c in SAFE {
      var i :| 0 <= i < |SAFE| && SAFE[i] == c;
      assert c == SymbolAt(i);
    }
    if '0' <= c <= '9' {
      assert SAFE[c as int - '0' as int] == c;
    } else if 'a' <= c <= 'z' {
      assert SAFE[c as int - 'a' as int + 10] == c;
    } else if 'A' <= c <= 'Z' {
      assert SAFE[c as int - 'A' as int + 36] == c;
    }
  }

  /** What the random generator promises: exactly `size` symbols, all from `SAFE`. */
  predicate IsSegment(segment: string, size: nat) {
    |segment| == size && forall i :: 0 <= i < |segment| ==> segment[i] in SAFE
  }

  lemma SegmentIsAscii(segment: string, size: nat)
    requires IsSegment(segment, size)
    ensures IsAscii(segment)
  {
    forall i | 0 <= i < |segment| ensures segment[i] as int < 0x80 {
      SafeSymbols(segment[i]);
    }
  }

  /** A byte that encodes one of the `SAFE` symbols. */
  predicate IsSafeByte(b: byte) {
    b < 0x80 && (b as int as char) in SAFE
  }

  /** `format`: the prefix, the separator and a segment of `size` alphabet symbols. */
  function Format(prefix: Bytes, size: nat, segment: string): (id: Bytes)
    requires IsSegment(segment, size)
    ensures |id| == |prefix| + 1 + size
    ensures StartsWith(id, prefix + [SEPARATOR])
    ensures forall i :: |prefix| < i < |id| ==> IsSafeByte(id[i])
  {
    SegmentIsAscii(segment, size);
    var encoded := EncodeAscii(segment);
    assert forall i :: 0 <= i < |encoded| ==> (encoded[i] as int as char) == segment[i];
    prefix + [SEPARATOR] + encoded
  }

  /**
   * Two generated texts with the same prefix are equal exactly when their
   * segments are: distinct random draws never collide in the identifier text.
   */
  lemma FormatInjective(prefix: Bytes, size: nat, s1: string, s2: string)
    requires IsSegment(s1, size) && IsSegment(s2, size)
    ensures Format(prefix, size, s1) == Format(prefix, size, s2) <==> s1 == s2
  {
  }

  /** The `prefixid!` macro: `format`, with the segment length defaulting to 21. */
  function PrefixId(prefix: Bytes, segment: string, size: nat := DEFAULT_SIZE): (id: Bytes)
    requires IsSegment(segment, size)
    ensures WellFormed(Kind(prefix, size), id)
  {
    Format(prefix, size, segment)
  }

  /** With the size omitted, `prefixid!(prefix)` is `prefix`, `_` and 21 alphabet symbols: 22 bytes past the prefix. */
  lemma PrefixIdDefaultSize(prefix: Bytes, segment: string)
    requires IsSegment(segment, DEFAULT_SIZE)
    ensures |PrefixId(prefix, segment)| == |prefix| + 22
    ensures StartsWith(PrefixId(prefix, segment), prefix + [SEPARATOR])
    ensures forall i :: |prefix| < i < |prefix| + 22 ==> IsSafeByte(PrefixId(prefix, segment)[i])
  {
    var id := PrefixId(prefix, segment);
    assert WellFormed(Kind(prefix, DEFAULT_SIZE), id);
  }

  /** The two failures of parsing. */
  datatype CreateIdError = InvalidSize | InvalidPrefix

  datatype Result<T> = Ok(value: T) | Err(error: CreateIdError)

  /** One `create_id!` invocation: its prefix and segment length (21 when omitted). */
  datatype Kind = Kind(prefix: Bytes, size: nat := DEFAULT_SIZE) {
    /** The only length a text of this kind may have: the prefix, one separator and `size` segment bytes. */
    function TotalLen(): (n: nat)
      ensures n == |prefix + [SEPARATOR]| + size
    {
      size + |prefix| + 1
    }
  }

  /** An identifier: its text, compared as a whole. */
  datatype Id = Id(text: Bytes) {
    /** `as_str`: the stored text, which determines the identifier. */
    function AsStr(): (t: Bytes)
      ensures Id(t) == this
    {
      text
    }

    /** `Into<String>`: the stored text, handed over. */
    function Into(): (t: Bytes)
      ensures t == AsStr()
    {
      text
    }
  }

  /** The canonical shape of a text of kind `k`: `<prefix>_<segment>`, segment from `SAFE`. */
  predicate WellFormed(k: Kind, text: Bytes) {
    && |text| == k.TotalLen()
    && StartsWith(text, k.prefix + [SEPARATOR])
    && forall i :: |k.prefix| < i < |text| ==> IsSafeByte(text[i])
  }

  /** `new`: a fresh identifier of kind `k` around the random `segment`. */
  function New(k: Kind, segment: string): (id: Id)
    requires IsSegment(segment, k.size)
    ensures WellFormed(k, id.AsStr())
    ensures id.AsStr() == PrefixId(k.prefix, segment, k.size)
  {
    Id(PrefixId(k.prefix, segment, k.size))
  }

  /** `default`: a fresh random identifier, not an empty or fixed one. */
  function Default(k: Kind, segment: string): (id: Id)
    requires IsSegment(segment, k.size)
    ensures WellFormed(k, id.AsStr())
    ensures id == New(k, segment)
  {
    New(k, segment)
  }

  /**
   * Exactly the texts of canonical shape are those `new` can produce: every
   * well-formed text is the text of `New(k, seg)` for some segment `seg`.
   */
  lemma WellFormedIffGenerated(k: Kind, text: Bytes)
    ensures WellFormed(k, text) <==>
            exists seg :: IsSegment(seg, k.size) && New(k, seg).AsStr() == text
  {
    if WellFormed(k, text) {
      var n := |k.prefix| + 1;
      var tail := text[n..];
      assert IsAsciiBytes(tail) by {
        forall i | 0 <= i < |tail| ensures tail[i] < 0x80 {
          assert IsSafeByte(text[n + i]);
        }
      }
      var seg := DecodeAscii(tail);
      forall i | 0 <= i < |seg| ensures seg[i] in SAFE {
        assert IsSafeByte(text[n + i]);
      }
      assert IsSegment(seg, k.size);
      assert text[..n] == k.prefix + [SEPARATOR];
      assert text == text[..n] + tail;
      assert New(k, seg).AsStr() == text;
    }
  }

  /**
   * `from_str`: the length is checked first, then the prefix; neither the
   * separator nor the segment's symbols are looked at, and the text is kept
   * verbatim.
   */
  function FromStr(k: Kind, s: Bytes): (r: Result<Id>)
    ensures r == Err(InvalidSize) <==> |s| != k.TotalLen()
    ensures r == Err(InvalidPrefix) <==> |s| == k.TotalLen() && !StartsWith(s, k.prefix)
    ensures r.Ok? <==> |s| == k.TotalLen() && StartsWith(s, k.prefix)
    ensures r.Ok? ==> r.value.AsStr() == s
  {
    if |s| != k.TotalLen() then
      Err(InvalidSize)
    else if !StartsWith(s, k.prefix) then
      Err(InvalidPrefix)
    else
      Ok(Id(s))
  }

  /** Parsing the text of a fresh identifier gives that identifier back. */
  lemma ParseNew(k: Kind, segment: string)
    requires IsSegment(segment, k.size)
    ensures FromStr(k, New(k, segment).AsStr()) == Ok(New(k, segment))
  {
  }

  /** Every well-formed text parses, to the identifier holding it. */
  lemma ParseWellFormed(k: Kind, s: Bytes)
    requires WellFormed(k, s)
    ensures FromStr(k, s) == Ok(Id(s))
  {
  }

  /**
   * After the prefix, parsing accepts any `size + 1` bytes, whatever sits
   * where the separator belongs and whatever the segment holds.
   */
  lemma ParseAcceptsAnyTail(k: Kind, tail: Bytes)
    requires |tail| == k.size + 1
    ensures FromStr(k, k.prefix + tail) == Ok(Id(k.prefix + tail))
  {
  }

  /** Whatever parses is its kind's prefix followed by `size + 1` further bytes. */
  lemma ParsedShape(k: Kind, s: Bytes)
    requires FromStr(k, s).Ok?
    ensures exists tail :: |tail| == k.size + 1 && s == k.prefix + tail
  {
    var tail := s[|k.prefix|..];
    assert s == s[..|k.prefix|] + tail;
  }

  /** Parsing is stable: re-parsing a parsed identifier's text yields it again. */
  lemma ParseStable(k: Kind, s: Bytes, id: Id)
    requires FromStr(k, s) == Ok(id)
    ensures FromStr(k, id.AsStr()) == Ok(id)
  {
  }

  /** Identifiers are equal exactly when their texts are. */
  lemma IdEquality(a: Id, b: Id)
    ensures a == b <==> a.AsStr() == b.AsStr()
  {
  }

  /** `into` hands over the same text `as_str` shows. */
  lemma IntoIsAsStr(id: Id)
    ensures id.Into() == id.AsStr()
  {
  }
}
