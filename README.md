# prefix_id, modelled in Dafny

The `prefix_id` crate builds typed, prefixed identifiers such as `user_8f3k2…`.
Every identifier has the shape `<prefix>_<segment>`. The segment is a run of
random symbols drawn from a fixed 62-symbol alphabet `SAFE`: digits, then
lower-case letters, then upper-case letters. The crate has three parts:

- `format(prefix, size)` and the `prefixid!` macro. They build the text
  `prefix + "_" + segment`, and `prefixid!` defaults the size to 21.
- `create_id!`. It defines one identifier type per `(prefix, size)` pair,
  again with size 21 by default. Each type has `new`, `default`, `as_str`,
  `into` and the validating parser `from_str`.
- `CreateIdError`. Parsing fails with one of its two values, `InvalidSize`
  or `InvalidPrefix`.

The model has three modules:

- `Utf8Text` (`text.dfy`) holds Rust strings as UTF-8 byte sequences. Rust's
  `len` and `starts_with` work on bytes, and so does `StartsWith` here. Every
  `SAFE` symbol is ASCII, so each one is encoded as a single byte.
- `TypedId` (`typed_id.dfy`) holds the alphabet, `Format`, the `PrefixId`
  macro with its default size, the `Kind` of one `create_id!` call, the `Id`
  wrapper, and the operations `New`, `Default`, `FromStr`, `Id.AsStr` and
  `Id.Into`.
- `TypedIdExamples` (`typed_id_examples.dfy`) restates the crate's own tests,
  plus two inputs that show how lenient the parser is.

The random draw is a call into the foreign `nanoid` generator. In the model
it is an input. `New`, `Default`, `Format` and `PrefixId` take the drawn
segment as a parameter. The precondition `IsSegment(segment, size)` says only
what the generator guarantees: exactly `size` symbols, each one from `SAFE`.
Every statement about generated identifiers therefore holds for every
possible draw.

Two points about parsing, and one about configuration, follow the code
exactly:

- `from_str` checks only the prefix, not the `_` after it (src/lib.rs:104).
  So, for kind `("im", 10)`, `imX1234567890` parses
  (`AcceptsMissingSeparator`).
- `from_str` never checks the segment's symbols, so `im_12345678-0` parses
  (`AcceptsForeignSymbol`). The canonical shape is the predicate `WellFormed`.
  `WellFormedIffGenerated` proves that `WellFormed` describes exactly the
  texts `New` can produce. `ParseWellFormed` proves that every well-formed
  text parses, and the two examples show that the converse fails.
- Nothing in src/lib.rs constrains the prefix or the size, so the model
  accepts any prefix and any `size >= 0`.

The two parse failures are the datatype `CreateIdError` (src/lib.rs:23-30),
and `FromStr` says exactly when each one is returned.

## Model

| member | source | states |
|---|---|---|
| `TypedId.SafeLayout` | src/lib.rs:1-6 | The alphabet's 62 entries are the ten digits, then `a` to `z`, then `A` to `Z`, each run in order. |
| `TypedId.SafeAlphabet` | src/lib.rs:1-6 | The alphabet has exactly 62 entries. No two entries are equal, and every entry is ASCII. |
| `TypedId.SafeSymbols` | src/lib.rs:1-6 | A character is in the alphabet if and only if it is an ASCII digit, lower-case letter or upper-case letter. |
| `TypedId.Format` | src/lib.rs:8-10 | The text is the prefix length plus `1 + size` bytes long. It starts with the prefix and then `_`. Every byte after the separator encodes an alphabet symbol. |
| `TypedId.FormatInjective` | src/lib.rs:8-10 | With the same prefix, two generated texts are equal if and only if their random segments are equal. Identifiers are therefore exactly as unique as the draws. |
| `TypedId.PrefixId` | src/lib.rs:13-21 | The text of `prefixid!(prefix, size)` has canonical shape: the prefix length plus `1 + size` bytes, the prefix, then `_`, then only alphabet symbols. |
| `TypedId.PrefixIdDefaultSize` | src/lib.rs:14-16 | For every prefix, `prefixid!(prefix)` with the size omitted is the prefix length plus 22 bytes long, starts with the prefix and `_`, and has only alphabet symbols after it. |
| `TypedId.New` | src/lib.rs:79-81 | A new identifier has canonical shape for its kind: total length, prefix, `_`, and an alphabet-only segment. Its text is `prefixid!(prefix, size)`. |
| `TypedId.WellFormedIffGenerated` | src/lib.rs:79-81 | A text has canonical shape for a kind if and only if `new` yields that text for some draw of the segment. |
| `TypedId.Kind.TotalLen` | src/lib.rs:99 | The length a text of the kind must have is the prefix, one separator and `size` segment bytes. |
| `TypedId.Id.AsStr` | src/lib.rs:84-86 | `as_str` returns the text that the identifier wraps, so wrapping that text again gives the same identifier. |
| `TypedId.Id.Into` | src/lib.rs:89-93 | `into` hands over the same text as `as_str`. |
| `TypedId.Default` | src/lib.rs:112-116 | `default` gives the same identifier as `new` for the same draw, so it is random and well formed, not an empty value. |
| `TypedId.FromStr` | src/lib.rs:98-109 | The result is `InvalidSize` if and only if the length differs from `size` plus the prefix length plus 1, so a wrong length is never reported as `InvalidPrefix`. The result is `InvalidPrefix` if and only if the length is right but the text does not start with the prefix. Parsing succeeds if and only if both checks pass. On success the identifier holds the input verbatim. |
| `TypedId.ParseNew` | src/lib.rs:98-109 | Parsing the text of any new identifier gives back that same identifier. |
| `TypedId.ParseWellFormed` | src/lib.rs:98-109 | Every text of canonical shape parses to the identifier that holds it. |
| `TypedId.ParseAcceptsAnyTail` | src/lib.rs:99-108 | After the prefix, any `size + 1` bytes are accepted, whatever is in the separator position or the segment. |
| `TypedId.ParsedShape` | src/lib.rs:99-108 | Every accepted text is the prefix followed by exactly `size + 1` more bytes. |
| `TypedId.ParseStable` | src/lib.rs:98-109 | Parsing the text of a parsed identifier gives the same identifier again. |
| `TypedId.IdEquality` | src/lib.rs:75-76 | Two identifiers are equal if and only if their texts are equal. |
| `TypedId.IntoIsAsStr` | src/lib.rs:89-93 | `into` returns the same text as `as_str`. |
| `TypedIdExamples.DefaultSizeFormat` | src/lib.rs:147-151 | `prefixid!("im")` is 24 bytes long and starts with `im_`. |
| `TypedIdExamples.SizedFormat` | src/lib.rs:155-159 | `prefixid!("im", 10)` is 13 bytes long and starts with `im_`. |
| `TypedIdExamples.DefaultKindNew` | src/lib.rs:163-169 | For `create_id!(ImId, "im")`, `new` gives 24 bytes starting with `im_`. |
| `TypedIdExamples.SizedKindNew` | src/lib.rs:173-179 | For `create_id!(ImId, "im", 10)`, `new` gives 13 bytes starting with `im_`. |
| `TypedIdExamples.RejectsShortText` | src/lib.rs:184-187 | `im_123456789` fails with `InvalidSize` for kind `("im", 10)`. |
| `TypedIdExamples.RejectsWrongPrefix` | src/lib.rs:191-194 | `in_1234567890` fails with `InvalidPrefix` for kind `("im", 10)`. |
| `TypedIdExamples.AcceptsCanonicalText` | src/lib.rs:219-225 | `im_1234567890` parses for kind `("im", 10)`, and `as_str` returns that text. |
| `TypedIdExamples.AcceptsMissingSeparator` | src/lib.rs:104-106 | `imX1234567890` parses for kind `("im", 10)` although it is not of canonical shape, because only the prefix is checked. |
| `TypedIdExamples.AcceptsForeignSymbol` | src/lib.rs:99-108 | `im_12345678-0` parses for kind `("im", 10)` although `-` is not an alphabet symbol. |

## Left out

- The random generator `nanoid` (src/lib.rs:9) is a foreign call. The model keeps only its guarantee of length and alphabet. Uniformity, cryptographic strength and statistical uniqueness are not modelled. `FormatInjective` reduces uniqueness of identifiers to uniqueness of draws.
- The serde adapter (src/lib.rs:32-64) depends on the serde framework and the JSON format. Its deserializer only passes the string to `from_str`, which is `FromStr` here.
- `Display`, `Debug` and `Deref` (src/lib.rs:118-136) and the derived `Hash` (src/lib.rs:75) are formatting and library plumbing. Each shows or hashes the stored text, which is `Id.AsStr`. The `as_str` test at src/lib.rs:197-203 compares `as_str` with the `Deref` view, so it adds nothing here.
- `SmolStr` storage and the ownership transfer of `into` are not modelled. An identifier is a plain immutable byte sequence.
- The macro mechanics are not modelled. In the source, each `create_id!` call makes a distinct Rust type, so identifiers of different kinds cannot be mixed at compile time. In the model all kinds share the one `Id` type, and the `Kind` value is passed alongside it.
- The `thiserror` message strings are not modelled. `CreateIdError` keeps only its two values.
- TypedId.FromStr: the total length `size + prefix.len() + 1` is computed in `usize` in the source. The model uses unbounded integers, so the overflow near 2^64 is not modelled. No realistic kind reaches that size.
