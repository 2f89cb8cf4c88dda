/**
 * The streaming decoder of the `transformer` program: a three-level state
 * machine that reads XML events one at a time, fills one partial product or
 * sale record at a time, and emits the record when its item closes.
 *
 * `Next` and `Decode` are the specification (one event, and a whole event
 * sequence); the class `Decoder` holds the five mutable locals of the
 * program plus the two output sequences, and `Transform` is its event loop.
 */
module Transformer {
  import opened Numbers

  // ---------------------------------------------------------------------
  // Records
  // ---------------------------------------------------------------------

  datatype Product = Product(id: U32, category: string, name: string)

  /** `quantity` is an `f64`; it is kept as the literal text it was parsed from. */
  datatype Sale = Sale(id: string, productId: U32, date: I64, quantity: F64Literal, unit: string)

  /** `Product::default()`. */
  const DefaultProduct: Product := Product(0, "", "")

  /** `Sale::default()`; the quantity `0.0` is written "0". */
  const DefaultSale: Sale := Sale("", 0, 0, "0", "")

  // ---------------------------------------------------------------------
  // Where in the document the decoder is
  // ---------------------------------------------------------------------

  datatype LocationItem = Other | InProduct | InSale

  datatype LocationProduct = Other | InId | InCategory | InName

  datatype LocationSale = Other | InId | InProductId | InDate | InQuantity | InUnit

  // ---------------------------------------------------------------------
  // Input and failure
  // ---------------------------------------------------------------------

  /** One item of the XML reader. Element names are local names (the
      namespace prefix stripped). `Other` stands for every other event kind
      (document start and end, whitespace, comments, CDATA, processing
      instructions) and for a reader error: no state of the decoder reacts
      to any of them. */
  datatype Event = StartElement(name: string) | EndElement(name: string) | Characters(text: string) | Other

  /** The numeric fields whose text is parsed, and so can abort the run. */
  datatype NumericField = ProductIdField | SaleProductIdField | SaleDateField | SaleQuantityField

  /** The panic of an `unwrap` on a failed parse: which field, and the text. */
  datatype ParseError = ParseError(field: NumericField, text: string)

  datatype Result<+T> = Success(value: T) | Failure(error: ParseError)

  // ---------------------------------------------------------------------
  // The transition function
  // ---------------------------------------------------------------------

  /** The decoder's whole state: the three locations, the two partial
      records, and what has been emitted so far. */
  datatype DecoderState = DecoderState(
    item: LocationItem,
    productField: LocationProduct,
    saleField: LocationSale,
    product: Product,
    sale: Sale,
    products: seq<Product>,
    sales: seq<Sale>)

  /** The state before the first event. */
  const Initial: DecoderState :=
    DecoderState(LocationItem.Other, LocationProduct.Other, LocationSale.Other,
                 DefaultProduct, DefaultSale, [], [])

  /** The product field a start tag opens; `Other` for any name that is not a product field. */
  function ProductFieldNamed(name: string): (f: LocationProduct)
    ensures f.InId? <==> name == "id"
    ensures f.InCategory? <==> name == "category"
    ensures f.InName? <==> name == "name"
  {
    if name == "id" then LocationProduct.InId
    else if name == "category" then InCategory
    else if name == "name" then InName
    else LocationProduct.Other
  }

  /** The sale field a start tag opens; `Other` for any name that is not a sale field. */
  function SaleFieldNamed(name: string): (f: LocationSale)
    ensures f.InId? <==> name == "id"
    ensures f.InProductId? <==> name == "product-id"
    ensures f.InDate? <==> name == "date"
    ensures f.InQuantity? <==> name == "quantity"
    ensures f.InUnit? <==> name == "unit"
  {
    if name == "id" then LocationSale.InId
    else if name == "product-id" then InProductId
    else if name == "date" then InDate
    else if name == "quantity" then InQuantity
    else if name == "unit" then InUnit
    else LocationSale.Other
  }

  /** Stores the text of a `Characters` event into the open product field. */
  function SetProductField(p: Product, field: LocationProduct, text: string): (r: Result<Product>)
    requires !field.Other?
    // only the `id` parse can fail, and the error carries the text
    ensures r.Failure? <==> field.InId? && ParseU32(text).None?
    ensures r.Failure? ==> r.error == ParseError(ProductIdField, text)
    // on success the open field, and only it, takes the text's value
    ensures r.Success? ==>
      r.value.id == (if field.InId? then ParseU32(text).value else p.id) &&
      r.value.category == (if field.InCategory? then text else p.category) &&
      r.value.name == (if field.InName? then text else p.name)
  {
    if field.InId? then
      match ParseU32(text)
      case Some(v) => Success(p.(id := v))
      case None => Failure(ParseError(ProductIdField, text))
    else if field.InCategory? then Success(p.(category := text))
    else Success(p.(name := text))
  }

  /** Stores the text of a `Characters` event into the open sale field. */
  function SetSaleField(s: Sale, field: LocationSale, text: string): (r: Result<Sale>)
    requires !field.Other?
    // only the three numeric fields can fail, and the error carries the text
    ensures r.Failure? <==>
      (field.InProductId? && ParseU32(text).None?) ||
      (field.InDate? && ParseI64(text).None?) ||
      (field.InQuantity? && !IsF64Literal(text))
    ensures r.Failure? ==> r.error.text == text
    ensures r.Failure? ==>
      r.error.field == if field.InProductId? then SaleProductIdField
                       else if field.InDate? then SaleDateField
                       else SaleQuantityField
    // on success the open field, and only it, takes the text's value
    ensures r.Success? ==>
      r.value.id == (if field.InId? then text else s.id) &&
      r.value.productId == (if field.InProductId? then ParseU32(text).value else s.productId) &&
      r.value.date == (if field.InDate? then ParseI64(text).value else s.date) &&
      r.value.quantity == (if field.InQuantity? then text else s.quantity) &&
      r.value.unit == (if field.InUnit? then text else s.unit)
  {
    if field.InId? then Success(s.(id := text))
    else if field.InProductId? then
      match ParseU32(text)
      case Some(v) => Success(s.(productId := v))
      case None => Failure(ParseError(SaleProductIdField, text))
    else if field.InDate? then
      match ParseI64(text)
      case Some(v) => Success(s.(date := v))
      case None => Failure(ParseError(SaleDateField, text))
    else if field.InQuantity? then
      if IsF64Literal(text) then Success(s.(quantity := text))
      else Failure(ParseError(SaleQuantityField, text))
    else Success(s.(unit := text))
  }

  /** A field location is open only within its own item. */
  ghost predicate Consistent(s: DecoderState)
  {
    (!s.item.InProduct? ==> s.productField.Other?) &&
    (!s.item.InSale? ==> s.saleField.Other?)
  }

  /** One turn of the event loop. */
  function Next(s: DecoderState, e: Event): (r: Result<DecoderState>)
    // the emitted sequences only ever grow by the current partial record
    ensures r.Success? ==>
      (r.value.products == s.products || r.value.products == s.products + [s.product]) &&
      (r.value.sales == s.sales || r.value.sales == s.sales + [s.sale])
    // at most one record per event
    ensures r.Success? ==> r.value.products == s.products || r.value.sales == s.sales
    // a failed parse happens only on text inside a numeric field
    ensures r.Failure? ==>
      e.Characters? && r.error.text == e.text &&
      ((s.item.InProduct? && s.productField.InId?) ||
       (s.item.InSale? && (s.saleField.InProductId? || s.saleField.InDate? || s.saleField.InQuantity?)))
    ensures r.Success? && Consistent(s) ==> Consistent(r.value)
  {
    if s.item.Other? then
      if e == StartElement("product") then
        Success(s.(item := InProduct, productField := LocationProduct.Other, product := DefaultProduct))
      else if e == StartElement("sale") then
        Success(s.(item := InSale, saleField := LocationSale.Other, sale := DefaultSale))
      else
        Success(s)
    else if s.item.InProduct? then
      if s.productField.Other? then
        match e
        case StartElement(name) => Success(s.(productField := ProductFieldNamed(name)))
        case EndElement(_) => Success(s.(item := LocationItem.Other, products := s.products + [s.product]))
        case _ => Success(s)
      else
        match e
        case Characters(text) =>
          (match SetProductField(s.product, s.productField, text)
           case Success(p) => Success(s.(product := p))
           case Failure(err) => Failure(err))
        case EndElement(_) => Success(s.(productField := LocationProduct.Other))
        case _ => Success(s)
    else
      if s.saleField.Other? then
        match e
        case StartElement(name) => Success(s.(saleField := SaleFieldNamed(name)))
        case EndElement(name) =>
          if name == "sale" then Success(s.(item := LocationItem.Other, sales := s.sales + [s.sale]))
          else Success(s)
        case _ => Success(s)
      else
        match e
        case Characters(text) =>
          (match SetSaleField(s.sale, s.saleField, text)
           case Success(v) => Success(s.(sale := v))
           case Failure(err) => Failure(err))
        case EndElement(_) => Success(s.(saleField := LocationSale.Other))
        case _ => Success(s)
  }

  /** The outcome of a run: the last state reached, and the parse error
      that aborted the run, if one did. */
  datatype Outcome = Outcome(state: DecoderState, failure: Option<ParseError>)

  /** The `for event in parser` loop: events are handled in order until
      they run out or a parse fails. */
  function Decode(s: DecoderState, events: seq<Event>): (r: Outcome)
    ensures r.failure == None ==> |r.state.products| + |r.state.sales| <= |s.products| + |s.sales| + |events|
    ensures s.products <= r.state.products && s.sales <= r.state.sales
    decreases |events|
  {
    if events == [] then Outcome(s, None)
    else
      match Next(s, events[0])
      case Failure(err) => Outcome(s, Some(err))
      case Success(s') => Decode(s', events[1..])
  }

  // ---------------------------------------------------------------------
  // The mutable decoder and its event loop
  // ---------------------------------------------------------------------

  class Decoder {
    var locationItem: LocationItem
    var locationProduct: LocationProduct
    var locationSale: LocationSale
    var product: Product
    var sale: Sale
    /** The records emitted so far (the program prints them). */
    var products: seq<Product>
    var sales: seq<Sale>

    /** The fields as a value of the specification. */
    function Current(): DecoderState
      reads this
    {
      DecoderState(locationItem, locationProduct, locationSale, product, sale, products, sales)
    }

    constructor ()
      ensures Current() == Initial
    {
      locationItem, locationProduct, locationSale := LocationItem.Other, LocationProduct.Other, LocationSale.Other;
      product, sale := DefaultProduct, DefaultSale;
      products, sales := [], [];
    }

    /** Handles one event. On a failed parse nothing is changed and the
        error is returned; the caller must stop there. */
    method Step(e: Event) returns (failure: Option<ParseError>)
      modifies this
      ensures Next(old(Current()), e).Success? ==> failure == None && Current() == Next(old(Current()), e).value
      ensures Next(old(Current()), e).Failure? ==>
        failure == Some(Next(old(Current()), e).error) && Current() == old(Current())
    {
      failure := None;
      if locationItem.Other? {
        match e {
          case StartElement(name) =>
            if name == "product" {
              locationItem := InProduct;
              locationProduct := LocationProduct.Other;
              product := DefaultProduct;
            } else if name == "sale" {
              locationItem := InSale;
              locationSale := LocationSale.Other;
              sale := DefaultSale;
            }
          case _ =>
        }
      } else if locationItem.InProduct? {
        if locationProduct.Other? {
          match e {
            case StartElement(name) =>
              if name == "id" {
                locationProduct := LocationProduct.InId;
              } else if name == "category" {
                locationProduct := InCategory;
              } else if name == "name" {
                locationProduct := InName;
              }
            case EndElement(_) =>
              locationItem := LocationItem.Other;
              products := products + [product];
            case _ =>
          }
        } else if locationProduct.InId? {
          match e {
            case Characters(text) =>
              var v := ParseU32(text);
              if v.None? {
                failure := Some(ParseError(ProductIdField, text));
                return;
              }
              product := product.(id := v.value);
            case EndElement(_) => locationProduct := LocationProduct.Other;
            case _ =>
          }
        } else if locationProduct.InCategory? {
          match e {
            case Characters(text) => product := product.(category := text);
            case EndElement(_) => locationProduct := LocationProduct.Other;
            case _ =>
          }
        } else {
          match e {
            case Characters(text) => product := product.(name := text);
            case EndElement(_) => locationProduct := LocationProduct.Other;
            case _ =>
          }
        }
      } else {
        if locationSale.Other? {
          match e {
            case StartElement(name) =>
              if name == "id" {
                locationSale := LocationSale.InId;
              } else if name == "product-id" {
                locationSale := InProductId;
              } else if name == "date" {
                locationSale := InDate;
              } else if name == "quantity" {
                locationSale := InQuantity;
              } else if name == "unit" {
                locationSale := InUnit;
              }
            case EndElement(name) =>
              if name == "sale" {
                locationItem := LocationItem.Other;
                sales := sales + [sale];
              }
            case _ =>
          }
        } else if locationSale.InId? {
          match e {
            case Characters(text) => sale := sale.(id := text);
            case EndElement(_) => locationSale := LocationSale.Other;
            case _ =>
          }
        } else if locationSale.InProductId? {
          match e {
            case Characters(text) =>
              var v := ParseU32(text);
              if v.None? {
                failure := Some(ParseError(SaleProductIdField, text));
                return;
              }
              sale := sale.(productId := v.value);
            case EndElement(_) => locationSale := LocationSale.Other;
            case _ =>
          }
        } else if locationSale.InDate? {
          match e {
            case Characters(text) =>
              var v := ParseI64(text);
              if v.None? {
                failure := Some(ParseError(SaleDateField, text));
                return;
              }
              sale := sale.(date := v.value);
            case EndElement(_) => locationSale := LocationSale.Other;
            case _ =>
          }
        } else if locationSale.InQuantity? {
          match e {
            case Characters(text) =>
              if !IsF64Literal(text) {
                failure := Some(ParseError(SaleQuantityField, text));
                return;
              }
              sale := sale.(quantity := text);
            case EndElement(_) => locationSale := LocationSale.Other;
            case _ =>
          }
        } else {
          match e {
            case Characters(text) => sale := sale.(unit := text);
            case EndElement(_) => locationSale := LocationSale.Other;
            case _ =>
          }
        }
      }
    }
  }

  /** The program's `main` after the reader is built: a fresh decoder fed
      every event in order. Returns the emitted products and sales and, if a
      parse aborted the run, its error; records emitted before the abort
      are kept. */
  method Transform(events: seq<Event>) returns (products: seq<Product>, sales: seq<Sale>, failure: Option<ParseError>)
    ensures Decode(Initial, events) == Outcome(Decode(Initial, events).state, failure)
    ensures products == Decode(Initial, events).state.products
    ensures sales == Decode(Initial, events).state.sales
  {
    var decoder := new Decoder();
    var i := 0;
    failure := None;
    while i < |events| && failure == None
      invariant 0 <= i <= |events|
      invariant failure == None ==> Decode(Initial, events) == Decode(decoder.Current(), events[i..])
      invariant failure != None ==> Decode(Initial, events) == Outcome(decoder.Current(), failure)
      decreases |events| - i
    {
      assert events[i..][0] == events[i] && events[i..][1..] == events[i + 1..];
      failure := decoder.Step(events[i]);
      i := i + 1;
    }
    products, sales := decoder.products, decoder.sales;
  }
}
