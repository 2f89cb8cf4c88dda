# transformer: the XML product/sale decoder

The `transformer` program reads an XML document of products and sales
(`transformer/src/main.rs`, lines 161-356). It uses a streaming reader that
produces one event at a time: a start tag, an end tag, text, or something
else. Three nested locations track where the reader is:

- the item: outside, in a product, or in a sale;
- the product field: none, `id`, `category` or `name`;
- the sale field: none, `id`, `product-id`, `date`, `quantity` or `unit`.

The program fills one partial `Product` or `Sale` record at a time. When an
item closes, it prints the record. Text in a numeric field is parsed with
Rust's `str::parse` and `unwrap`ped, so a malformed number ends the program.

The model has three modules:

- `Numbers` (`numbers.dfy`) models the parts of Rust's `str::parse` that the
  program uses:
  - `u32` and `i64`: an optional sign (`-` only for the signed type), decimal
    digits only, and a range check;
  - `f64`: only the syntax is modelled (`IsF64Literal`). This covers decimal
    and exponent forms and `inf`/`infinity`/`nan` in any letter case.

  It also gives decimal printers and the lemmas relating the printers to the
  parsers.
- `Transformer` (`transformer.dfy`) holds the specification and the
  imperative code:
  - The specification is the transition function `Next` (one event) and
    `Decode` (a whole event sequence, stopping at the first failed parse).
  - The class `Decoder` has the program's five mutable locals as fields,
    plus two output sequences. Printing a record at item close is modelled
    as appending it to `products` or `sales`.
  - `Decoder.Step` is the body of the `for event in parser` loop, proved
    equal to `Next`. `Transform` is the loop itself, proved equal to
    `Decode` from the initial state.
- `TransformerProofs` (`transformer_proofs.dfy`) proves the transition table
  event by event, facts about whole runs, and a round trip: the events of a
  document listing products and sales decode back to exactly those records.

The model follows the code, including where the code is asymmetric:

- A product with no field open is closed by an end tag of **any** name.
  An unknown child element such as `<note/>` therefore closes the product
  early, and the fields after it are lost.
- A sale is closed only by `</sale>`.
- A start tag that names no field, text between fields, and stray tags
  outside an item are all ignored. None of these events raises an error.
- The only failure is a numeric parse, and it ends the run.

## Model

| member | source | states |
|---|---|---|
| Transformer.Next | transformer/src/main.rs:211-356 | One event: the outputs are unchanged or extended by exactly the partial record of the closing item, and never both sequences in one step. A failure happens only on text inside a numeric field and carries that text. Field locations stay consistent with the item. |
| Transformer.Decode | transformer/src/main.rs:211-356 | A run: the outputs only grow (earlier records are never changed), and a run without failure emits at most one record per event. |
| Transformer.Decoder.constructor | transformer/src/main.rs:202-207 | The decoder starts outside any item, with no field open and both partial records at their defaults. |
| Transformer.Decoder.Step | transformer/src/main.rs:212-354 | One iteration of the event loop: the new fields equal `Next` of the old state. On a failed parse the state is untouched and the error is returned. |
| Transformer.Transform | transformer/src/main.rs:201-356 | The whole loop over the events: the emitted products and sales, and the failure if any, are those of `Decode` from the initial state. |
| TransformerProofs.IdleStartsItem | transformer/src/main.rs:214-223 | Outside an item, `<product>` or `<sale>` enters that item, resets its field location, and resets its partial record to `(0, "", "")` or `("", 0, 0, 0.0, "")`. Nothing else changes. |
| TransformerProofs.IdleIgnoresOtherEvents | transformer/src/main.rs:224 | Outside an item, every other event (other start tags, any end tag, text, reader errors) leaves the state and outputs unchanged. |
| TransformerProofs.ProductClosedByAnyEndTag | transformer/src/main.rs:239-242 | With no product field open, an end tag of any name leaves the product and appends exactly the partial product to the output. |
| TransformerProofs.SaleClosedOnlyBySaleEndTag | transformer/src/main.rs:297-301 | With no sale field open, `</sale>` leaves the sale and appends exactly the partial sale; any other end tag changes nothing. |
| TransformerProofs.EmitsExactlyAtClose | transformer/src/main.rs:239-300 | Across all states and events, a record is appended exactly when its item closes, and it is the partial record as it stands. Every other step appends nothing. |
| TransformerProofs.StartTagOpensField | transformer/src/main.rs:226-302 | In an item with no field open, a start tag opens the field of that name, for a product and for a sale alike. A name that is not a field of the item changes nothing. |
| Transformer.ProductFieldNamed | transformer/src/main.rs:228-238 | A start tag opens the product field `id`, `category` or `name` exactly when its name is that word. |
| Transformer.SaleFieldNamed | transformer/src/main.rs:278-296 | A start tag opens the sale field `id`, `product-id`, `date`, `quantity` or `unit` exactly when its name is that word. |
| TransformerProofs.FieldNames | transformer/src/main.rs:228-296 | A start tag opens no product field exactly when its name is not `id`, `category` or `name`, and no sale field exactly when it is not one of the five sale names. Names are compared case-sensitively. |
| Transformer.SetProductField | transformer/src/main.rs:245-274 | Text in an open product field sets that field and leaves the other two as they were. `id` takes the parsed `u32`. The only failure is a failed `id` parse, and the error names the field and carries the text. |
| Transformer.SetSaleField | transformer/src/main.rs:303-352 | Text in an open sale field sets that field and leaves the other four as they were. `product-id`, `date` and `quantity` take their parsed values, and these three are the only fields that can fail. The error names the field and carries the text. |
| TransformerProofs.ProductTextSetsOpenField | transformer/src/main.rs:245-274 | In a product field, text overwrites only that field. `category` and `name` are stored verbatim. `id` is parsed as a `u32`, and a failed parse aborts with the field and the text. |
| TransformerProofs.SaleTextSetsOpenField | transformer/src/main.rs:303-352 | In a sale field, text overwrites only that field. `id` and `unit` are stored verbatim. `product-id` is parsed as a `u32`, `date` as an `i64` and `quantity` as an `f64`, each aborting on failure. |
| TransformerProofs.LastTextWins | transformer/src/main.rs:245-274 | Two text events in the same field give the state the second alone would give. |
| TransformerProofs.FieldEndsAndIgnores | transformer/src/main.rs:250-352 | Inside any product or sale field, an end tag of any name closes the field. Nested start tags and reader errors change nothing. |
| TransformerProofs.TextBetweenFieldsIgnored | transformer/src/main.rs:243 | Text inside an item with no field open is ignored. |
| TransformerProofs.FailureAborts | transformer/src/main.rs:247 | A failed parse ends the run at once. Whatever follows, the state and outputs are those from before the failing event. |
| TransformerProofs.DecodeAppend | transformer/src/main.rs:211 | Decoding two event sequences in a row equals decoding their concatenation. If the first aborts, the second is never read. |
| TransformerProofs.DecodeKeepsConsistent | transformer/src/main.rs:212-226 | Over any run, an open product field occurs only inside a product, and an open sale field only inside a sale. |
| TransformerProofs.ItemsRoundTrip | transformer/src/main.rs:211-356 | The events of any list of products and sales, read between items, decode without failure. They append exactly the list's products and its sales, each in list order. |
| TransformerProofs.OtherIgnored | transformer/src/main.rs:224 | Every state ignores an event that is not a start tag, an end tag or text: every `_ => {}` arm of the loop catches it. |
| TransformerProofs.DecodeIgnoresOther | transformer/src/main.rs:211-356 | A run decodes exactly as the same run with every whitespace, comment or reader-error event removed. |
| TransformerProofs.IndentedDocumentRoundTrip | transformer/src/main.rs:211-356 | The document round trip also holds when whitespace or comments are laid out anywhere between the tags. |
| TransformerProofs.DocumentRoundTrip | transformer/src/main.rs:163-177 | A document whose root is neither `product` nor `sale` decodes back to exactly the records it lists. Empty fields produce no text event and come back as the `Default` values. |
| TransformerProofs.InterleavedExample | transformer/src/main.rs:241 | Interleaved products and sales come out as two sequences, each in document order. |
| TransformerProofs.ProductWithoutCategory | transformer/src/main.rs:217 | `<product><id>7</id><name>Widget</name></product>` (for any id and name) emits one product whose category keeps its default `""`. |
| TransformerProofs.MalformedQuantityAborts | transformer/src/main.rs:335 | Quantity text that is not an `f64` literal aborts the run with that text, before the sale is emitted. |
| TransformerProofs.IdleIgnoresRun | transformer/src/main.rs:213-224 | Outside an item, any run without a `<product>` or `<sale>` start tag changes nothing. |
| TransformerProofs.UnknownChildClosesProduct | transformer/src/main.rs:239-243 | An unknown child element closes a product at the child's end tag. The product is emitted with its defaults, and the later fields and `</product>` are ignored. |
| TransformerProofs.UnknownChildSkippedInSale | transformer/src/main.rs:297-301 | The same unknown child inside a sale is skipped, and the later fields still reach the emitted sale. |
| Numbers.ParseU32 | transformer/src/main.rs:247 | A `u32` parse succeeds exactly on an optional `+` followed by one or more decimal digits whose value is below 2^32, and the result is that value. Anything else fails, which the `unwrap` turns into the abort. |
| Numbers.ParseI64 | transformer/src/main.rs:325 | An `i64` parse succeeds exactly on an optional `+` or `-` followed by one or more decimal digits whose signed value lies in [-2^63, 2^63), and the result is that signed value. |
| Numbers.IsF64Literal | transformer/src/main.rs:335 | An accepted `f64` text is non-empty and starts with a sign, a digit, a point, or the first letter of `inf`, `infinity` or `nan`. |
| Numbers.ParseU32ShowNat | transformer/src/main.rs:247 | Parsing a `u32` from the decimal text of `n` gives `n` exactly when `n < 2^32`, and fails otherwise. |
| Numbers.ParseU32Canonical | transformer/src/main.rs:315 | A successful `u32` parse of canonical decimal text prints back to the same text. |
| Numbers.ParseU32Prefixes | transformer/src/main.rs:315 | Like Rust's `u32` parse, a leading `0` or a leading `+` does not change the result. |
| Numbers.ParseU32RejectsMinus | transformer/src/main.rs:247 | Any text starting with `-` fails as a `u32`, even `-0`. |
| Numbers.ParseI64ShowInt | transformer/src/main.rs:325 | Parsing an `i64` from the decimal text of `i` gives `i` exactly when `-2^63 <= i < 2^63`, and fails otherwise. |
| Numbers.ShowIntIsF64Literal | transformer/src/main.rs:335 | Every decimal integer text is accepted as an `f64`. |
| Numbers.DecimalFractionAccepted | transformer/src/main.rs:335 | `12.5` is an `f64` literal. |
| Numbers.ExponentFormAccepted | transformer/src/main.rs:335 | `-.5e+3` is an `f64` literal: signs, a missing integer part and an exponent are accepted. |
| Numbers.SpecialWordAccepted | transformer/src/main.rs:335 | `InFiniTy` is an `f64` literal: the special words are matched in any letter case. |
| Numbers.NonNumbersRefused | transformer/src/main.rs:335 | `abc`, the empty text and a lone `+` are not `f64` literals. |
| Numbers.LonePointRefused | transformer/src/main.rs:335 | `.` alone is not an `f64` literal. |
| Numbers.BareExponentRefused | transformer/src/main.rs:335 | `1e`, an exponent with no digits, is not an `f64` literal. |
| Numbers.SecondPointRefused | transformer/src/main.rs:335 | `1.2.3` is not an `f64` literal. |

## Left out

- Opening the file named by the first command-line argument and creating the reader (`transformer/src/main.rs:205-210`). The input is a sequence of events. The panics of those `unwrap`s are not modelled.
- The XML reader itself (the `xml-rs` crate is not part of this model). Which texts become `Characters` events (CDATA, entity expansion, whitespace inside a field) and what the reader does after an error are not modelled. Whitespace between tags, comments and reader errors are the event `Other`. Every state ignores that event (`OtherIgnored`), so a run decodes as if those events were absent (`DecodeIgnoresOther`).
- The `println!` lines (`transformer/src/main.rs:241`, `248` and so on). Only the two item-exit prints are kept, as appends to `products` and `sales`.
- The relative order of products and sales in the printed output. The model keeps two sequences, each in document order.
- Transformer.Sale: the `f64` value of `quantity` is not modelled, because floating-point rounding has no counterpart here. The field keeps the literal text it was parsed from, with `"0"` as the default.
- Numbers.IsF64Literal: the `f64` grammar follows Rust's `str::parse::<f64>` syntax (sign, digits, point, exponent, `inf`/`infinity`/`nan`), but it was stated from the documented grammar, not derived from the standard library's code.
- The kind of parse error (`ParseIntError`, `ParseFloatError`) in the panic message. A failure records only the field and its text.
- The commented-out TOML and JSON code (`transformer/src/main.rs:1-157`). It is dead code.
- `transformer_complete/src/main.rs` (loading JSON and writing to databases) and `web_assembly` (browser drawing). They are I/O around external libraries and are not part of this model.
