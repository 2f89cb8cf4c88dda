/**
 * Properties of the decoder's transition function `Next` and of whole runs
 * (`Decode`): the transition table event by event, append-only emission,
 * abort on a failed parse, and a round trip from a list of records through
 * the events of a document that lists them back to the same records.
 */
module TransformerProofs {
  import opened Numbers
  import opened Transformer

  // ---------------------------------------------------------------------
  // Item level
  // ---------------------------------------------------------------------

  /** Outside any item, `<product>` and `<sale>` start a fresh record of
      their kind, with its field location reset and every field at its
      default; nothing else changes. */
  lemma IdleStartsItem(s: DecoderState)
    requires s.item.Other?
    ensures Next(s, StartElement("product")) ==
      Success(s.(item := InProduct, productField := LocationProduct.Other, product := Product(0, "", "")))
    ensures Next(s, StartElement("sale")) ==
      Success(s.(item := InSale, saleField := LocationSale.Other, sale := Sale("", 0, 0, "0", "")))
  {
  }

  /** Outside any item, every other event (other start tags, any end tag,
      text, reader errors) leaves the whole state and the output unchanged. */
  lemma IdleIgnoresOtherEvents(s: DecoderState, e: Event)
    requires s.item.Other?
    requires e != StartElement("product") && e != StartElement("sale")
    ensures Next(s, e) == Success(s)
  {
  }

  /** A product between fields is closed by an end tag of ANY name, which
      emits exactly the partial product. */
  lemma ProductClosedByAnyEndTag(s: DecoderState, name: string)
    requires s.item.InProduct? && s.productField.Other?
    ensures Next(s, EndElement(name)) ==
      Success(s.(item := LocationItem.Other, products := s.products + [s.product]))
  {
  }

  /** A sale between fields is closed only by `</sale>`; any other end tag
      is ignored. */
  lemma SaleClosedOnlyBySaleEndTag(s: DecoderState, name: string)
    requires s.item.InSale? && s.saleField.Other?
    ensures name == "sale" ==>
      Next(s, EndElement(name)) == Success(s.(item := LocationItem.Other, sales := s.sales + [s.sale]))
    ensures name != "sale" ==> Next(s, EndElement(name)) == Success(s)
  {
  }

  /** The events that close an item. */
  predicate ClosesProduct(s: DecoderState, e: Event)
  {
    s.item.InProduct? && s.productField.Other? && e.EndElement?
  }

  predicate ClosesSale(s: DecoderState, e: Event)
  {
    s.item.InSale? && s.saleField.Other? && e == EndElement("sale")
  }

  /** Each closing event emits exactly one record, the partial record as it
      stands, onto the output of its kind; every other event emits nothing. */
  lemma EmitsExactlyAtClose(s: DecoderState, e: Event)
    requires Next(s, e).Success?
    ensures Next(s, e).value.products ==
      if ClosesProduct(s, e) then s.products + [s.product] else s.products
    ensures Next(s, e).value.sales ==
      if ClosesSale(s, e) then s.sales + [s.sale] else s.sales
  {
  }

  // ---------------------------------------------------------------------
  // Field level
  // ---------------------------------------------------------------------

  /** Between fields, a start tag opens the field of that name, and a start
      tag naming no field of the item changes nothing. */
  lemma StartTagOpensField(s: DecoderState, name: string)
    ensures s.item.InProduct? && s.productField.Other? ==>
      Next(s, StartElement(name)) == Success(s.(productField := ProductFieldNamed(name)))
    ensures s.item.InSale? && s.saleField.Other? ==>
      Next(s, StartElement(name)) == Success(s.(saleField := SaleFieldNamed(name)))
  {
  }

  /** A start tag naming none of an item's fields opens nothing: the
      product fields are `id`, `category`, `name` and the sale fields `id`,
      `product-id`, `date`, `quantity`, `unit`, matched exactly and
      case-sensitively. */
  lemma FieldNames(name: string)
    ensures ProductFieldNamed(name).Other? <==> name !in {"id", "category", "name"}
    ensures SaleFieldNamed(name).Other? <==> name !in {"id", "product-id", "date", "quantity", "unit"}
  {
  }

  /** Inside a product field, text overwrites that one field of the partial
      product: verbatim for `category` and `name`, parsed as a `u32` for
      `id`, where a failed parse aborts. Locations, the sale and the outputs
      are unchanged. */
  lemma ProductTextSetsOpenField(s: DecoderState, text: string)
    requires s.item.InProduct? && !s.productField.Other?
    ensures s.productField.InCategory? ==>
      Next(s, Characters(text)) == Success(s.(product := s.product.(category := text)))
    ensures s.productField.InName? ==>
      Next(s, Characters(text)) == Success(s.(product := s.product.(name := text)))
    ensures s.productField.InId? ==>
      Next(s, Characters(text)) ==
        match ParseU32(text)
        case Some(v) => Success(s.(product := s.product.(id := v)))
        case None => Failure(ParseError(ProductIdField, text))
  {
  }

  /** Inside a sale field, text overwrites that one field of the partial
      sale: verbatim for `id` and `unit`, parsed as a `u32` for `product-id`,
      as an `i64` for `date` and as an `f64` for `quantity`. */
  lemma SaleTextSetsOpenField(s: DecoderState, text: string)
    requires s.item.InSale? && !s.saleField.Other?
    ensures s.saleField.InId? ==>
      Next(s, Characters(text)) == Success(s.(sale := s.sale.(id := text)))
    ensures s.saleField.InUnit? ==>
      Next(s, Characters(text)) == Success(s.(sale := s.sale.(unit := text)))
    ensures s.saleField.InProductId? ==>
      Next(s, Characters(text)) ==
        match ParseU32(text)
        case Some(v) => Success(s.(sale := s.sale.(productId := v)))
        case None => Failure(ParseError(SaleProductIdField, text))
    ensures s.saleField.InDate? ==>
      Next(s, Characters(text)) ==
        match ParseI64(text)
        case Some(v) => Success(s.(sale := s.sale.(date := v)))
        case None => Failure(ParseError(SaleDateField, text))
    ensures s.saleField.InQuantity? ==>
      Next(s, Characters(text)) ==
        if IsF64Literal(text) then Success(s.(sale := s.sale.(quantity := text)))
        else Failure(ParseError(SaleQuantityField, text))
  {
  }

  /** Inside a field, the last text wins: a second text event gives the same
      state as if the first had never been seen. */
  lemma LastTextWins(s: DecoderState, first: string, second: string)
    requires (s.item.InProduct? && !s.productField.Other?) || (s.item.InSale? && !s.saleField.Other?)
    requires Next(s, Characters(first)).Success?
    ensures Next(Next(s, Characters(first)).value, Characters(second)) == Next(s, Characters(second))
  {
  }

  /** Inside a field, an end tag of any name closes the field; start tags
      (nested elements) and reader errors change nothing. */
  lemma FieldEndsAndIgnores(s: DecoderState, name: string)
    ensures s.item.InProduct? && !s.productField.Other? ==>
      Next(s, EndElement(name)) == Success(s.(productField := LocationProduct.Other)) &&
      Next(s, StartElement(name)) == Success(s) && Next(s, Event.Other) == Success(s)
    ensures s.item.InSale? && !s.saleField.Other? ==>
      Next(s, EndElement(name)) == Success(s.(saleField := LocationSale.Other)) &&
      Next(s, StartElement(name)) == Success(s) && Next(s, Event.Other) == Success(s)
  {
  }

  /** Between fields, text is ignored. */
  lemma TextBetweenFieldsIgnored(s: DecoderState, text: string)
    requires (s.item.InProduct? && s.productField.Other?) || (s.item.InSale? && s.saleField.Other?)
    ensures Next(s, Characters(text)) == Success(s)
  {
  }

  // ---------------------------------------------------------------------
  // Whole runs
  // ---------------------------------------------------------------------

  lemma DecodeStep(s: DecoderState, e: Event, rest: seq<Event>)
    requires Next(s, e).Success?
    ensures Decode(s, [e] + rest) == Decode(Next(s, e).value, rest)
  {
    assert ([e] + rest)[0] == e && ([e] + rest)[1..] == rest;
  }

  /** A failed parse ends the run on the spot: the state (and so the output)
      is the one before the failing event, whatever follows. */
  lemma FailureAborts(s: DecoderState, e: Event, rest: seq<Event>)
    requires Next(s, e).Failure?
    ensures Decode(s, [e] + rest) == Outcome(s, Some(Next(s, e).error))
  {
    assert ([e] + rest)[0] == e;
  }

  /** A run over two pieces is the run over the first, continued with the
      second when the first did not abort. */
  lemma {:induction false} DecodeAppend(s: DecoderState, a: seq<Event>, b: seq<Event>)
    ensures Decode(s, a).failure == None ==> Decode(s, a + b) == Decode(Decode(s, a).state, b)
    ensures Decode(s, a).failure != None ==> Decode(s, a + b) == Decode(s, a)
    decreases |a|
  {
    if a == [] {
      assert a + b == b;
    } else {
      assert (a + b)[0] == a[0] && (a + b)[1..] == a[1..] + b;
      match Next(s, a[0])
      case Failure(_) =>
      case Success(s') => DecodeAppend(s', a[1..], b);
    }
  }

  /** Field locations stay within their own item over a whole run. */
  lemma {:induction false} DecodeKeepsConsistent(s: DecoderState, events: seq<Event>)
    requires Consistent(s)
    ensures Consistent(Decode(s, events).state)
    decreases |events|
  {
    if events != [] && Next(s, events[0]).Success? {
      DecodeKeepsConsistent(Next(s, events[0]).value, events[1..]);
    }
  }

  /** Events of no kind the decoder reacts to (whitespace, comments,
      reader errors) are ignored in every state. */
  lemma OtherIgnored(s: DecoderState)
    ensures Next(s, Event.Other) == Success(s)
  {
  }

  /** The events of a run without those the decoder never reacts to. */
  function DropOther(events: seq<Event>): (r: seq<Event>)
    ensures |r| <= |events|
    ensures forall i :: 0 <= i < |r| ==> !r[i].Other?
  {
    if events == [] then []
    else if events[0].Other? then DropOther(events[1..])
    else [events[0]] + DropOther(events[1..])
  }

  /** So a run decodes as if every such event were removed: whitespace
      between tags, comments and reader errors never change the outcome. */
  lemma {:induction false} DecodeIgnoresOther(s: DecoderState, events: seq<Event>)
    ensures Decode(s, events) == Decode(s, DropOther(events))
    decreases |events|
  {
    if events != [] {
      if events[0].Other? {
        DecodeIgnoresOther(s, events[1..]);
      } else {
        var rest := DropOther(events[1..]);
        assert ([events[0]] + rest)[0] == events[0] && ([events[0]] + rest)[1..] == rest;
        if Next(s, events[0]).Success? {
          DecodeIgnoresOther(Next(s, events[0]).value, events[1..]);
        }
      }
    }
  }

  // ---------------------------------------------------------------------
  // Round trip through a document
  // ---------------------------------------------------------------------

  datatype Item = ProductItem(product: Product) | SaleItem(sale: Sale)

  /** The text events of an element: the reader reports no event for empty text. */
  function TextEvents(text: string): seq<Event>
  {
    if text == "" then [] else [Characters(text)]
  }

  function FieldEvents(tag: string, text: string): seq<Event>
  {
    [StartElement(tag)] + TextEvents(text) + [EndElement(tag)]
  }

  function ProductEvents(p: Product): seq<Event>
  {
    [StartElement("product")] + FieldEvents("id", ShowNat(p.id)) + FieldEvents("category", p.category)
    + FieldEvents("name", p.name) + [EndElement("product")]
  }

  function SaleEvents(v: Sale): seq<Event>
  {
    [StartElement("sale")] + SaleFieldsEvents(v) + [EndElement("sale")]
  }

  function SaleFieldsEvents(v: Sale): seq<Event>
  {
    FieldEvents("id", v.id) + FieldEvents("product-id", ShowNat(v.productId))
    + FieldEvents("date", ShowInt(v.date)) + FieldEvents("quantity", v.quantity)
    + FieldEvents("unit", v.unit)
  }

  function ItemEvents(item: Item): seq<Event>
  {
    match item
    case ProductItem(p) => ProductEvents(p)
    case SaleItem(v) => SaleEvents(v)
  }

  function ItemsEvents(items: seq<Item>): seq<Event>
  {
    if items == [] then [] else ItemEvents(items[0]) + ItemsEvents(items[1..])
  }

  /** The events of a document whose root element lists the items in order. */
  function DocumentEvents(root: string, items: seq<Item>): seq<Event>
  {
    [StartElement(root)] + ItemsEvents(items) + [EndElement(root)]
  }

  function ProductsOf(items: seq<Item>): seq<Product>
  {
    if items == [] then []
    else (if items[0].ProductItem? then [items[0].product] else []) + ProductsOf(items[1..])
  }

  function SalesOf(items: seq<Item>): seq<Sale>
  {
    if items == [] then []
    else (if items[0].SaleItem? then [items[0].sale] else []) + SalesOf(items[1..])
  }

  /** Between items, with no field open. */
  predicate Idle(s: DecoderState)
  {
    s.item.Other? && s.productField.Other? && s.saleField.Other?
  }

  /** One product field: open, (text), close. */
  lemma ProductFieldEvents(s: DecoderState, tag: string, text: string)
    requires s.item.InProduct? && s.productField.Other? && !ProductFieldNamed(tag).Other?
    requires text != "" ==> SetProductField(s.product, ProductFieldNamed(tag), text).Success?
    ensures Decode(s, FieldEvents(tag, text)) ==
      Outcome(s.(product := if text == "" then s.product
                            else SetProductField(s.product, ProductFieldNamed(tag), text).value), None)
  {
    var open := s.(productField := ProductFieldNamed(tag));
    var filled := open.(product := if text == "" then s.product
                                   else SetProductField(s.product, ProductFieldNamed(tag), text).value);
    DecodeStep(s, StartElement(tag), TextEvents(text) + [EndElement(tag)]);
    assert FieldEvents(tag, text) == [StartElement(tag)] + (TextEvents(text) + [EndElement(tag)]);
    DecodeAppend(open, TextEvents(text), [EndElement(tag)]);
    if text != "" {
      DecodeStep(open, Characters(text), []);
    }
    DecodeStep(filled, EndElement(tag), []);
  }

  /** One sale field: open, (text), close. */
  lemma SaleFieldEvents(s: DecoderState, tag: string, text: string)
    requires s.item.InSale? && s.saleField.Other? && !SaleFieldNamed(tag).Other?
    requires text != "" ==> SetSaleField(s.sale, SaleFieldNamed(tag), text).Success?
    ensures Decode(s, FieldEvents(tag, text)) ==
      Outcome(s.(sale := if text == "" then s.sale
                         else SetSaleField(s.sale, SaleFieldNamed(tag), text).value), None)
  {
    var open := s.(saleField := SaleFieldNamed(tag));
    var filled := open.(sale := if text == "" then s.sale
                                else SetSaleField(s.sale, SaleFieldNamed(tag), text).value);
    DecodeStep(s, StartElement(tag), TextEvents(text) + [EndElement(tag)]);
    assert FieldEvents(tag, text) == [StartElement(tag)] + (TextEvents(text) + [EndElement(tag)]);
    DecodeAppend(open, TextEvents(text), [EndElement(tag)]);
    if text != "" {
      DecodeStep(open, Characters(text), []);
    }
    DecodeStep(filled, EndElement(tag), []);
  }

  /** Two runs that do not abort, one after the other. */
  lemma DecodeChain(s: DecoderState, a: seq<Event>, b: seq<Event>, t: DecoderState, u: DecoderState)
    requires Decode(s, a) == Outcome(t, None) && Decode(t, b) == Outcome(u, None)
    ensures Decode(s, a + b) == Outcome(u, None)
  {
    DecodeAppend(s, a, b);
  }

  /** A product's events, read between items, emit exactly that product. */
  lemma ProductRoundTrip(s: DecoderState, p: Product)
    requires Idle(s)
    ensures Decode(s, ProductEvents(p)) == Outcome(s.(product := p, products := s.products + [p]), None)
  {
    var s0 := s.(item := InProduct, productField := LocationProduct.Other, product := DefaultProduct);
    var s1 := s0.(product := Product(p.id, "", ""));
    var s2 := s0.(product := Product(p.id, p.category, ""));
    var s3 := s0.(product := p);
    var e0 := [StartElement("product")];
    var f1 := FieldEvents("id", ShowNat(p.id));
    var f2 := FieldEvents("category", p.category);
    var f3 := FieldEvents("name", p.name);
    assert Decode(s, e0) == Outcome(s0, None) by {
      DecodeStep(s, StartElement("product"), []);
      assert e0 == [StartElement("product")] + [];
    }
    assert Decode(s, e0 + f1) == Outcome(s1, None) by {
      ParseU32ShowNat(p.id);
      ProductFieldEvents(s0, "id", ShowNat(p.id));
      DecodeChain(s, e0, f1, s0, s1);
    }
    assert Decode(s, e0 + f1 + f2) == Outcome(s2, None) by {
      ProductFieldEvents(s1, "category", p.category);
      DecodeChain(s, e0 + f1, f2, s1, s2);
    }
    assert Decode(s, e0 + f1 + f2 + f3) == Outcome(s3, None) by {
      ProductFieldEvents(s2, "name", p.name);
      DecodeChain(s, e0 + f1 + f2, f3, s2, s3);
    }
    DecodeStep(s3, EndElement("product"), []);
    assert [EndElement("product")] == [EndElement("product")] + [];
    DecodeChain(s, e0 + f1 + f2 + f3, [EndElement("product")], s3, s.(product := p, products := s.products + [p]));
  }

  /** The first three fields of a sale: `id`, `product-id`, `date`. */
  lemma SaleHeadFields(s0: DecoderState, v: Sale)
    requires s0.item.InSale? && s0.saleField.Other? && s0.sale == DefaultSale
    ensures Decode(s0, FieldEvents("id", v.id) + FieldEvents("product-id", ShowNat(v.productId))
                       + FieldEvents("date", ShowInt(v.date)))
         == Outcome(s0.(sale := Sale(v.id, v.productId, v.date, "0", "")), None)
  {
    var s1 := s0.(sale := Sale(v.id, 0, 0, "0", ""));
    var s2 := s0.(sale := Sale(v.id, v.productId, 0, "0", ""));
    var s3 := s0.(sale := Sale(v.id, v.productId, v.date, "0", ""));
    var f1 := FieldEvents("id", v.id);
    var f2 := FieldEvents("product-id", ShowNat(v.productId));
    var f3 := FieldEvents("date", ShowInt(v.date));
    SaleFieldEvents(s0, "id", v.id);
    ParseU32ShowNat(v.productId);
    SaleFieldEvents(s1, "product-id", ShowNat(v.productId));
    DecodeChain(s0, f1, f2, s1, s2);
    ParseI64ShowInt(v.date);
    SaleFieldEvents(s2, "date", ShowInt(v.date));
    DecodeChain(s0, f1 + f2, f3, s2, s3);
  }

  /** All five fields of a sale, read from a fresh partial sale. */
  lemma SaleFields(s0: DecoderState, v: Sale)
    requires s0.item.InSale? && s0.saleField.Other? && s0.sale == DefaultSale
    ensures Decode(s0, SaleFieldsEvents(v)) == Outcome(s0.(sale := v), None)
  {
    var head := FieldEvents("id", v.id) + FieldEvents("product-id", ShowNat(v.productId))
                + FieldEvents("date", ShowInt(v.date));
    var f4 := FieldEvents("quantity", v.quantity);
    var s3 := s0.(sale := Sale(v.id, v.productId, v.date, "0", ""));
    var s4 := s0.(sale := Sale(v.id, v.productId, v.date, v.quantity, ""));
    SaleHeadFields(s0, v);
    SaleFieldEvents(s3, "quantity", v.quantity);
    DecodeChain(s0, head, f4, s3, s4);
    SaleFieldEvents(s4, "unit", v.unit);
    DecodeChain(s0, head + f4, FieldEvents("unit", v.unit), s4, s0.(sale := v));
  }

  /** A sale's events, read between items, emit exactly that sale. */
  lemma SaleRoundTrip(s: DecoderState, v: Sale)
    requires Idle(s)
    ensures Decode(s, SaleEvents(v)) == Outcome(s.(sale := v, sales := s.sales + [v]), None)
  {
    var s0 := s.(item := InSale, saleField := LocationSale.Other, sale := DefaultSale);
    var s5 := s0.(sale := v);
    var e0 := [StartElement("sale")];
    DecodeStep(s, StartElement("sale"), []);
    assert e0 == [StartElement("sale")] + [];
    SaleFields(s0, v);
    DecodeChain(s, e0, SaleFieldsEvents(v), s0, s5);
    DecodeStep(s5, EndElement("sale"), []);
    assert [EndElement("sale")] == [EndElement("sale")] + [];
    DecodeChain(s, e0 + SaleFieldsEvents(v), [EndElement("sale")], s5, s.(sale := v, sales := s.sales + [v]));
  }

  /** One item, read between items, emits its record and ends between items. */
  lemma ItemRoundTrip(s: DecoderState, item: Item)
    requires Idle(s)
    ensures Decode(s, ItemEvents(item)).failure == None
    ensures Idle(Decode(s, ItemEvents(item)).state)
    ensures Decode(s, ItemEvents(item)).state.products == s.products + ProductsOf([item])
    ensures Decode(s, ItemEvents(item)).state.sales == s.sales + SalesOf([item])
  {
    assert [item][1..] == [];
    match item
    case ProductItem(p) => ProductRoundTrip(s, p);
    case SaleItem(v) => SaleRoundTrip(s, v);
  }

  lemma SplitFirstItem(items: seq<Item>)
    requires items != []
    ensures ProductsOf(items) == ProductsOf([items[0]]) + ProductsOf(items[1..])
    ensures SalesOf(items) == SalesOf([items[0]]) + SalesOf(items[1..])
  {
    assert [items[0]][1..] == [];
  }

  /** Regrouping output sequences. Stated over an element type the solver
      knows nothing about, so that using it does not unfold `ProductsOf`
      or `SalesOf` inside the concatenation. */
  lemma AppendAssociative<T>(a: seq<T>, b: seq<T>, c: seq<T>)
    ensures a + b + c == a + (b + c)
  {
  }

  /** A list of items, read between items, emits its products and its sales,
      each in list order, and ends between items. */
  lemma {:induction false} ItemsRoundTrip(s: DecoderState, items: seq<Item>)
    requires Idle(s)
    ensures Decode(s, ItemsEvents(items)).failure == None
    ensures Idle(Decode(s, ItemsEvents(items)).state)
    ensures Decode(s, ItemsEvents(items)).state.products == s.products + ProductsOf(items)
    ensures Decode(s, ItemsEvents(items)).state.sales == s.sales + SalesOf(items)
    decreases |items|
  {
    if items == [] {
      assert s.products + [] == s.products && s.sales + [] == s.sales;
    } else {
      var first := ItemEvents(items[0]);
      var rest := ItemsEvents(items[1..]);
      var t := Decode(s, first).state;
      assert Decode(s, ItemsEvents(items)) == Decode(t, rest) && Idle(t) &&
             t.products == s.products + ProductsOf([items[0]]) && t.sales == s.sales + SalesOf([items[0]]) by {
        ItemRoundTrip(s, items[0]);
        assert ItemsEvents(items) == first + rest;
        DecodeAppend(s, first, rest);
      }
      ItemsRoundTrip(t, items[1..]);
      SplitFirstItem(items);
      AppendAssociative(s.products, ProductsOf([items[0]]), ProductsOf(items[1..]));
      AppendAssociative(s.sales, SalesOf([items[0]]), SalesOf(items[1..]));
    }
  }

  /** Wrapping a run that ends between items in a root element that is
      neither `product` nor `sale` changes nothing: the root's own tags
      are ignored. */
  lemma WrappedInRoot(s: DecoderState, root: string, body: seq<Event>, t: DecoderState)
    requires s.item.Other? && t.item.Other? && root != "product" && root != "sale"
    requires Decode(s, body) == Outcome(t, None)
    ensures Decode(s, [StartElement(root)] + body + [EndElement(root)]) == Outcome(t, None)
  {
    var close := [EndElement(root)];
    assert Decode(t, close) == Outcome(t, None) by {
      DecodeStep(t, EndElement(root), []);
      assert close == close + [];
    }
    DecodeChain(s, body, close, t, t);
    DecodeStep(s, StartElement(root), body + close);
    assert [StartElement(root)] + body + close == [StartElement(root)] + (body + close);
  }

  /** The decoder gives back every record of a document, products and
      sales each in document order, provided the root element is neither
      `product` nor `sale`. Fields with empty text produce no text event
      and come back as the defaults they started with. */
  lemma DocumentRoundTrip(root: string, items: seq<Item>)
    requires root != "product" && root != "sale"
    ensures Decode(Initial, DocumentEvents(root, items)).failure == None
    ensures Decode(Initial, DocumentEvents(root, items)).state.products == ProductsOf(items)
    ensures Decode(Initial, DocumentEvents(root, items)).state.sales == SalesOf(items)
  {
    var body := ItemsEvents(items);
    ItemsRoundTrip(Initial, items);
    WrappedInRoot(Initial, root, body, Decode(Initial, body).state);
    assert [] + ProductsOf(items) == ProductsOf(items);
    assert [] + SalesOf(items) == SalesOf(items);
  }

  /** The round trip holds as well for a document laid out with whitespace
      or comments between its tags: any events the decoder never reacts to
      may be added anywhere. */
  lemma IndentedDocumentRoundTrip(root: string, items: seq<Item>, events: seq<Event>)
    requires root != "product" && root != "sale"
    requires DropOther(events) == DocumentEvents(root, items)
    ensures Decode(Initial, events).failure == None
    ensures Decode(Initial, events).state.products == ProductsOf(items)
    ensures Decode(Initial, events).state.sales == SalesOf(items)
  {
    DecodeIgnoresOther(Initial, events);
    DocumentRoundTrip(root, items);
  }

  // ---------------------------------------------------------------------
  // Concrete runs
  // ---------------------------------------------------------------------

  /** The `name` field and the product's end tag, read after the `id` field. */
  lemma NameThenClose(p3: DecoderState, name: string)
    requires p3.item.InProduct? && p3.productField.Other?
    ensures Decode(p3, [StartElement("name"), Characters(name), EndElement("name"), EndElement("product")])
         == Outcome(p3.(item := LocationItem.Other, product := p3.product.(name := name),
                        products := p3.products + [p3.product.(name := name)]), None)
  {
    var p4 := p3.(productField := InName);
    var p5 := p4.(product := p3.product.(name := name));
    var p6 := p5.(productField := LocationProduct.Other);
    var done := Outcome(p3.(item := LocationItem.Other, product := p3.product.(name := name),
                            products := p3.products + [p3.product.(name := name)]), None);
    var e6 := [EndElement("product")];
    var e5 := [EndElement("name")] + e6;
    var e4 := [Characters(name)] + e5;
    assert Decode(p6, e6) == done by {
      DecodeStep(p6, EndElement("product"), []);
      assert e6 == [EndElement("product")] + [];
    }
    assert Decode(p5, e5) == done by { DecodeStep(p5, EndElement("name"), e6); }
    assert Decode(p4, e4) == done by { DecodeStep(p4, Characters(name), e5); }
    assert Decode(p3, [StartElement("name")] + e4) == done by { DecodeStep(p3, StartElement("name"), e4); }
    assert [StartElement("name")] + e4 == [StartElement("name"), Characters(name), EndElement("name"), EndElement("product")];
  }

  /** A product with an id and a name but no category, as in
      `<product><id>7</id><name>Widget</name></product>`: the category keeps
      its default. */
  lemma ProductWithoutCategory(id: U32, name: string)
    ensures Decode(Initial, [StartElement("product"), StartElement("id"), Characters(ShowNat(id)), EndElement("id"),
                             StartElement("name"), Characters(name), EndElement("name"), EndElement("product")])
         == Outcome(Initial.(product := Product(id, "", name), products := [Product(id, "", name)]), None)
  {
    var p1 := Initial.(item := InProduct);
    var p2 := p1.(productField := LocationProduct.InId);
    var p3 := p1.(product := Product(id, "", ""));
    var done := Outcome(Initial.(product := Product(id, "", name), products := [Product(id, "", name)]), None);
    var e3 := [StartElement("name"), Characters(name), EndElement("name"), EndElement("product")];
    var e2 := [EndElement("id")] + e3;
    var e1 := [Characters(ShowNat(id))] + e2;
    var e0 := [StartElement("id")] + e1;
    assert Decode(p3, e3) == done by {
      NameThenClose(p3, name);
      assert [] + [Product(id, "", name)] == [Product(id, "", name)];
    }
    assert Decode(p2.(product := Product(id, "", "")), e2) == done by {
      DecodeStep(p2.(product := Product(id, "", "")), EndElement("id"), e3);
    }
    assert Decode(p2, e1) == done by {
      ParseU32ShowNat(id);
      DecodeStep(p2, Characters(ShowNat(id)), e2);
    }
    assert Decode(p1, e0) == done by { DecodeStep(p1, StartElement("id"), e1); }
    assert Decode(Initial, [StartElement("product")] + e0) == done by {
      DecodeStep(Initial, StartElement("product"), e0);
    }
    assert [StartElement("product")] + e0 ==
      [StartElement("product"), StartElement("id"), Characters(ShowNat(id)), EndElement("id"),
       StartElement("name"), Characters(name), EndElement("name"), EndElement("product")];
  }

  /** A quantity text that is not an `f64` literal, as `abc` in
      `<sale><quantity>abc</quantity></sale>`, aborts the run with that text
      before the sale is emitted. */
  lemma MalformedQuantityAborts(text: string)
    requires !IsF64Literal(text)
    ensures Decode(Initial, [StartElement("sale"), StartElement("quantity"), Characters(text), EndElement("quantity"),
                             EndElement("sale")])
         == Outcome(Initial.(item := InSale, saleField := InQuantity), Some(ParseError(SaleQuantityField, text)))
  {
    var v1 := Initial.(item := InSale);
    var v2 := v1.(saleField := InQuantity);
    var e1 := [Characters(text)] + [EndElement("quantity"), EndElement("sale")];
    var e0 := [StartElement("quantity")] + e1;
    FailureAborts(v2, Characters(text), [EndElement("quantity"), EndElement("sale")]);
    DecodeStep(v1, StartElement("quantity"), e1);
    DecodeStep(Initial, StartElement("sale"), e0);
    assert [StartElement("sale")] + e0 ==
      [StartElement("sale"), StartElement("quantity"), Characters(text), EndElement("quantity"), EndElement("sale")];
  }

  /** Between items, a run with no `<product>` or `<sale>` start tag changes
      nothing: unknown elements, stray end tags and text are all ignored. */
  lemma {:induction false} IdleIgnoresRun(s: DecoderState, events: seq<Event>)
    requires s.item.Other?
    requires forall i :: 0 <= i < |events| ==> events[i] != StartElement("product") && events[i] != StartElement("sale")
    ensures Decode(s, events) == Outcome(s, None)
    decreases |events|
  {
    if events != [] {
      IdleIgnoresRun(s, events[1..]);
    }
  }

  /** The asymmetry between the two items: a child element that is not a
      field closes a product early at its end tag, so the fields after it
      are lost and the real `</product>` is ignored ... */
  lemma UnknownChildClosesProduct(child: string, name: string)
    requires ProductFieldNamed(child).Other?
    ensures Decode(Initial, [StartElement("product"), StartElement(child), EndElement(child),
                             StartElement("name"), Characters(name), EndElement("name"), EndElement("product")])
         == Outcome(Initial.(products := [DefaultProduct]), None)
  {
    var p1 := Initial.(item := InProduct);
    var p2 := Initial.(products := [DefaultProduct]);
    var tail := [StartElement("name"), Characters(name), EndElement("name"), EndElement("product")];
    var e1 := [EndElement(child)] + tail;
    var e0 := [StartElement(child)] + e1;
    assert Decode(p2, tail) == Outcome(p2, None) by { IdleIgnoresRun(p2, tail); }
    assert Decode(p1, e1) == Outcome(p2, None) by {
      DecodeStep(p1, EndElement(child), tail);
      assert [] + [DefaultProduct] == [DefaultProduct];
    }
    assert Decode(p1, e0) == Outcome(p2, None) by { DecodeStep(p1, StartElement(child), e1); }
    assert Decode(Initial, [StartElement("product")] + e0) == Outcome(p2, None) by {
      DecodeStep(Initial, StartElement("product"), e0);
    }
    assert [StartElement("product")] + e0 ==
      [StartElement("product"), StartElement(child), EndElement(child),
       StartElement("name"), Characters(name), EndElement("name"), EndElement("product")];
  }

  /** ... whereas inside a sale it is skipped and decoding goes on. */
  lemma UnknownChildSkippedInSale(child: string, unit: string)
    requires SaleFieldNamed(child).Other? && child != "sale"
    ensures Decode(Initial, [StartElement("sale"), StartElement(child), EndElement(child),
                             StartElement("unit"), Characters(unit), EndElement("unit"), EndElement("sale")])
            .state.sales == [DefaultSale.(unit := unit)]
  {
    var v1 := Initial.(item := InSale);
    var e1 := [StartElement("unit"), Characters(unit), EndElement("unit"), EndElement("sale")];
    var e0 := [EndElement(child)] + e1;
    SaleUnitThenClose(unit);
    assert Decode(v1, e0) == Decode(v1, e1) by { DecodeStep(v1, EndElement(child), e1); }
    assert Decode(v1, [StartElement(child)] + e0) == Decode(v1, e1) by {
      DecodeStep(v1, StartElement(child), e0);
    }
    assert Decode(Initial, [StartElement("sale")] + ([StartElement(child)] + e0)) == Decode(v1, e1) by {
      DecodeStep(Initial, StartElement("sale"), [StartElement(child)] + e0);
    }
    assert [StartElement("sale")] + ([StartElement(child)] + e0) ==
      [StartElement("sale"), StartElement(child), EndElement(child),
       StartElement("unit"), Characters(unit), EndElement("unit"), EndElement("sale")];
  }

  /** Inside a fresh sale, a unit field followed by the closing tag
      emits the default sale carrying that unit. */
  lemma SaleUnitThenClose(unit: string)
    ensures Decode(Initial.(item := InSale),
                   [StartElement("unit"), Characters(unit), EndElement("unit"), EndElement("sale")])
            .state.sales == [DefaultSale.(unit := unit)]
  {
    var v1 := Initial.(item := InSale);
    var v2 := v1.(saleField := InUnit);
    var v3 := v2.(sale := DefaultSale.(unit := unit));
    var v4 := v3.(saleField := LocationSale.Other);
    var e4 := [EndElement("sale")];
    var e3 := [EndElement("unit")] + e4;
    var e2 := [Characters(unit)] + e3;
    var done := Decode(v4, e4);
    assert done.state.sales == [DefaultSale.(unit := unit)] by {
      DecodeStep(v4, EndElement("sale"), []);
      assert e4 == [EndElement("sale")] + [];
      assert [] + [DefaultSale.(unit := unit)] == [DefaultSale.(unit := unit)];
    }
    assert Decode(v3, e3) == done by { DecodeStep(v3, EndElement("unit"), e4); }
    assert Decode(v2, e2) == done by { DecodeStep(v2, Characters(unit), e3); }
    assert Decode(v1, [StartElement("unit")] + e2) == done by { DecodeStep(v1, StartElement("unit"), e2); }
    assert [StartElement("unit")] + e2 ==
      [StartElement("unit"), Characters(unit), EndElement("unit"), EndElement("sale")];
  }

  /** Products and sales interleaved in a document come out as two
      sequences, each in document order. */
  lemma InterleavedExample(root: string, p1: Product, v: Sale, p2: Product)
    requires root != "product" && root != "sale"
    ensures Decode(Initial, DocumentEvents(root, [ProductItem(p1), SaleItem(v), ProductItem(p2)])).state.products == [p1, p2]
    ensures Decode(Initial, DocumentEvents(root, [ProductItem(p1), SaleItem(v), ProductItem(p2)])).state.sales == [v]
  {
    var items := [ProductItem(p1), SaleItem(v), ProductItem(p2)];
    DocumentRoundTrip(root, items);
    assert items[1..] == [SaleItem(v), ProductItem(p2)];
    assert items[1..][1..] == [ProductItem(p2)];
    assert items[1..][1..][1..] == [];
    assert ProductsOf([ProductItem(p2)]) == [p2];
    assert SalesOf([ProductItem(p2)]) == [];
    assert ProductsOf(items[1..]) == [p2] && SalesOf(items[1..]) == [v];
    assert ProductsOf(items) == [p1, p2] && SalesOf(items) == [v];
  }
}
