/**
 * The WooCommerce part of the plugin's structured data (class WooCommerce in
 * includes/modules/woocommerce/class-woocommerce-pro.php): the GTIN and brand
 * filters, the sitemap and robots filters for hidden products, and the
 * aggregation of a variable product into a schema.org `ProductGroup` whose
 * `hasVariant` list holds one `Product` entity per available variation.
 *
 * Host lookups are inputs: a `Product` and its `Variation`s carry the values
 * WooCommerce and the post meta would return, `Settings` the plugin options,
 * and `Env` the store currency, the current year and the description
 * rendering (shortcodes, then tag stripping), which stays opaque.
 */
module WooCommercePro {
  import opened PhpValues

  const DefaultGtinKey := "gtin8"
  const IsbnKey := "isbn"
  const ProductGroupType := "ProductGroup"
  const WooCommerceProductType := "WooCommerceProduct"
  const InStock := "https://schema.org/InStock"
  const OutOfStock := "https://schema.org/OutOfStock"
  const NewCondition := "NewCondition"
  const SuggestedAge := "https://schema.org/suggestedAge"
  const SuggestedGender := "https://schema.org/suggestedGender"

  /** `@type` of a product that carries an ISBN. */
  const BookType := List([Str("Product"), Str("Book")])

  /** The attributes a variant entity may carry, once the `pa_` taxonomy prefix is removed. */
  const VariantAttributeKeys: seq<string> := ["color", "size", "material", "pattern", "weight"]

  /** The attributes `variesBy` accepts and the schema.org property each one names. */
  const VariesByProperties: map<string, string> := map[
    "color" := "https://schema.org/color",
    "size" := "https://schema.org/size",
    "age" := SuggestedAge,
    "gender" := SuggestedGender,
    "material" := "https://schema.org/material",
    "pattern" := "https://schema.org/pattern"
  ]

  /** The fields every variant entity is built with, besides its attributes. */
  const VariantFields: seq<string> := ["@type", "sku", "name", "description", "image", "offers"]

  const NoIndexNoFollow: map<string, string> := map["noindex" := "noindex", "nofollow" := "nofollow"]

  /** The plugin options this class reads (`general.*`). */
  datatype Settings = Settings(
    gtin: Option<string>,
    productBrand: string,
    customProductBrand: Value,
    noindexHiddenProducts: bool)

  /** What the host supplies besides the settings. */
  datatype Env = Env(
    settings: Settings,
    currency: string,
    currentYear: nat,
    renderDescription: string -> string)

  /**
   * One available variation. `gtinMeta` and `saleEndMeta` are the raw post
   * meta (`''` when unset); `saleEndDate` is the date that `date_i18n` shows
   * for the sale-end timestamp; `image` and `price` are already resolved.
   */
  datatype Variation = Variation(
    id: int,
    sku: string,
    name: string,
    description: string,
    image: Value,
    attributes: seq<(string, string)>,
    stockStatus: string,
    price: Value,
    permalink: string,
    gtinMeta: string,
    saleEndMeta: string,
    saleEndDate: Date)

  datatype Product = Product(
    id: int,
    productType: string,
    permalink: string,
    shortDescription: string,
    description: string,
    gtinMeta: string,
    availableVariations: seq<Variation>)

  /** The object behind a sitemap entry; `catalogVisibility` is that of the product with its id. */
  datatype SitemapObject = SitemapObject(postType: Option<string>, catalogVisibility: string)

  /**
   * The page being rendered: `product` is the catalog visibility of the
   * current product (`None` when there is none); `termCount` is the count of
   * the queried product term.
   */
  datatype PageContext = PageContext(
    isProduct: bool,
    product: Option<string>,
    isProductTaxonomy: bool,
    postCount: int,
    termCount: int)

  function GtinKey(s: Settings): string {
    match s.gtin
    case Some(k) => k
    case None => DefaultGtinKey
  }

  // ---------------------------------------------------------------------
  // Small filters

  /** A hidden product is dropped from the sitemap when the setting asks for it. */
  function RemoveHiddenProducts(url: Value, urlType: string, obj: SitemapObject, s: Settings): (r: Option<Value>)
    ensures r.None? <==>
      urlType == "post" && obj.postType == Some("product") && s.noindexHiddenProducts && obj.catalogVisibility == "hidden"
    ensures r.Some? ==> r.value == url
  {
    if urlType != "post" || obj.postType.None? || obj.postType.value != "product"
       || !s.noindexHiddenProducts || obj.catalogVisibility != "hidden"
    then Some(url)
    else None
  }

  predicate HiddenProductPage(ctx: PageContext) {
    ctx.isProduct && ctx.product == Some("hidden")
  }

  /** A product archive with no posts on this page although its term has products. */
  predicate EmptyProductArchive(ctx: PageContext) {
    ctx.isProductTaxonomy && ctx.postCount == 0 && ctx.termCount != 0
  }

  function Robots(robots: map<string, string>, s: Settings, ctx: PageContext): (r: map<string, string>)
    ensures r != robots ==> r == NoIndexNoFollow
    ensures r == NoIndexNoFollow <==>
      robots == NoIndexNoFollow || (s.noindexHiddenProducts && (HiddenProductPage(ctx) || EmptyProductArchive(ctx)))
  {
    if !s.noindexHiddenProducts then robots
    else if ctx.isProduct && ctx.product.Some? && ctx.product.value == "hidden" then NoIndexNoFollow
    else if ctx.isProductTaxonomy && ctx.postCount == 0 && ctx.termCount != 0 then NoIndexNoFollow
    else robots
  }

  function AddCustomProductBrand(brand: Value, s: Settings): (r: Value)
    ensures s.productBrand == "custom" ==> r == s.customProductBrand
    ensures s.productBrand != "custom" ==> r == brand
  {
    if s.productBrand == "custom" then s.customProductBrand else brand
  }

  // ---------------------------------------------------------------------
  // GTIN

  /**
   * The product-entity GTIN filter: a non-empty value at the configured key
   * is kept as it is; otherwise the product's GTIN is written there, and a
   * non-empty `isbn` turns the entity into a Product and a Book.
   */
  function AddGtinInSchema(entity: Entity, gtinKey: string, productGtin: string): (r: Entity)
    ensures !EmptyAt(entity, gtinKey) ==> r == entity
    ensures EmptyAt(entity, gtinKey) && !Falsy(productGtin) && gtinKey != "@type" ==>
      gtinKey in r && r[gtinKey] == Str(productGtin)
    ensures EmptyAt(entity, gtinKey) && !EmptyAt(r, IsbnKey) ==> "@type" in r && r["@type"] == BookType
    ensures EmptyAt(entity, gtinKey) ==>
      (!EmptyAt(r, IsbnKey) <==> !EmptyAt(entity, IsbnKey) || (gtinKey == IsbnKey && !Falsy(productGtin)))
    ensures forall k :: k != gtinKey && k != "@type" ==> (k in r <==> k in entity) && (k in r ==> r[k] == entity[k])
    ensures gtinKey != "@type" && EmptyAt(entity, gtinKey) && EmptyAt(r, IsbnKey) ==>
      ("@type" in r <==> "@type" in entity) && ("@type" in r ==> r["@type"] == entity["@type"])
    ensures gtinKey != "@type" && Falsy(productGtin) ==>
      (gtinKey in r <==> gtinKey in entity) && (gtinKey in r ==> r[gtinKey] == entity[gtinKey])
  {
    if !EmptyAt(entity, gtinKey) then entity
    else
      var e := if Falsy(productGtin) then entity else entity[gtinKey := Str(productGtin)];
      if !EmptyAt(e, IsbnKey) then e["@type" := BookType] else e
  }

  /** Running the GTIN filter twice gives what running it once gives. */
  lemma AddGtinInSchemaIdempotent(entity: Entity, gtinKey: string, productGtin: string)
    requires gtinKey != "@type"
    ensures AddGtinInSchema(AddGtinInSchema(entity, gtinKey, productGtin), gtinKey, productGtin)
         == AddGtinInSchema(entity, gtinKey, productGtin)
  {
    var once := AddGtinInSchema(entity, gtinKey, productGtin);
    if EmptyAt(entity, gtinKey) && Falsy(productGtin) {
      var twice := AddGtinInSchema(once, gtinKey, productGtin);
      assert EmptyAt(once, gtinKey);
      if !EmptyAt(once, IsbnKey) {
        assert twice == once["@type" := BookType];
        assert once["@type" := BookType] == once;
      }
    }
  }

  /**
   * The variation GTIN: written at the configured key unless it is empty or
   * the key is `isbn`; nothing else changes.
   */
  function AddVariableGtin(gtinKey: string, gtin: string, e: Entity): (r: Entity)
    ensures Falsy(gtin) || gtinKey == IsbnKey ==> r == e
    ensures !Falsy(gtin) && gtinKey != IsbnKey ==> gtinKey in r && r[gtinKey] == Str(gtin)
    ensures forall k :: k != gtinKey ==> (k in r <==> k in e) && (k in r ==> r[k] == e[k])
    ensures (IsbnKey in r <==> IsbnKey in e) && (IsbnKey in r ==> r[IsbnKey] == e[IsbnKey])
  {
    if Falsy(gtin) || gtinKey == IsbnKey then e else e[gtinKey := Str(gtin)]
  }

  // ---------------------------------------------------------------------
  // One variant

  /** The variation's description, else the product's short description, else its description. */
  function GetVariantDescription(v: Variation, p: Product): (d: string)
    ensures !Falsy(v.description) ==> d == v.description
    ensures Falsy(v.description) && !Falsy(p.shortDescription) ==> d == p.shortDescription
    ensures Falsy(v.description) && Falsy(p.shortDescription) ==> d == p.description
    ensures Falsy(d) <==> Falsy(v.description) && Falsy(p.shortDescription) && Falsy(p.description)
  {
    if !Falsy(v.description) then v.description
    else if !Falsy(p.shortDescription) then p.shortDescription
    else p.description
  }

  /** The variant entity before attributes, offer and GTIN are added. */
  function BaseVariant(v: Variation, p: Product, env: Env): Entity {
    map[
      "@type" := Str("Product"),
      "sku" := Str(v.sku),
      "name" := Str(v.name),
      "description" := Str(env.renderDescription(GetVariantDescription(v, p))),
      "image" := v.image
    ]
  }

  /** A variation attribute key with every `pa_` removed, as `str_replace` does. */
  function AttributeKey(key: string): (k: string)
    ensures |k| <= |key|
  {
    StrRemove(key, "pa_")
  }

  /** The taxonomy prefix is removed from a whitelisted key, and a bare key is kept. */
  lemma AttributeKeyOfTaxonomy(k: string)
    requires '_' !in k
    ensures AttributeKey("pa_" + k) == k
    ensures AttributeKey(k) == k
  {
    StrRemoveLeading("pa_", k);
    StrRemoveAbsent(k, "pa_", '_');
  }

  /** `pa_` is removed wherever it occurs, not only at the front. */
  lemma AttributeKeyInner()
    ensures AttributeKey("copa_lor") == "color"
  {
    StrRemoveAbsent("lor", "pa_", '_');
    assert "copa_lor"[1..] == "opa_lor";
    assert "opa_lor"[1..] == "pa_lor";
    assert "pa_lor"[3..] == "lor";
  }

  /** An attribute that reaches the variant: a truthy value under a whitelisted key. */
  predicate CopiesAttribute(a: (string, string)) {
    !Falsy(a.1) && AttributeKey(a.0) in VariantAttributeKeys
  }

  /** The keys the attribute loop appends to `variesBy`, in order. */
  function CopiedKeys(attrs: seq<(string, string)>): (ks: seq<string>)
    ensures |ks| <= |attrs|
    ensures forall i :: 0 <= i < |ks| ==> ks[i] in VariantAttributeKeys
    decreases |attrs|
  {
    if |attrs| == 0 then []
    else
      var a := attrs[|attrs| - 1];
      CopiedKeys(attrs[..|attrs| - 1]) + (if CopiesAttribute(a) then [AttributeKey(a.0)] else [])
  }

  /** The variant after the attribute loop has copied each attribute in turn. */
  function WithAttributes(variant: Entity, attrs: seq<(string, string)>): (r: Entity)
    ensures variant.Keys <= r.Keys
    ensures forall k :: k in r && k !in VariantAttributeKeys ==> k in variant && r[k] == variant[k]
    decreases |attrs|
  {
    if |attrs| == 0 then variant
    else
      var e := WithAttributes(variant, attrs[..|attrs| - 1]);
      var a := attrs[|attrs| - 1];
      if CopiesAttribute(a) then e[AttributeKey(a.0) := Str(a.1)] else e
  }

  /** The value of the last attribute copied to key `k`, if any. */
  function LastCopied(attrs: seq<(string, string)>, k: string): Option<string>
    decreases |attrs|
  {
    if |attrs| == 0 then None
    else
      var a := attrs[|attrs| - 1];
      if CopiesAttribute(a) && AttributeKey(a.0) == k then Some(a.1) else LastCopied(attrs[..|attrs| - 1], k)
  }

  /** A key is in `CopiedKeys` exactly when some attribute is copied to it. */
  lemma {:induction false} CopiedKeysMembers(attrs: seq<(string, string)>, k: string)
    ensures k in CopiedKeys(attrs) <==> LastCopied(attrs, k).Some?
    decreases |attrs|
  {
    if |attrs| > 0 {
      CopiedKeysMembers(attrs[..|attrs| - 1], k);
    }
  }

  /**
   * The attribute loop writes each whitelisted key with its last truthy
   * value and leaves every other field as it was.
   */
  lemma {:induction false} WithAttributesAt(variant: Entity, attrs: seq<(string, string)>, k: string)
    ensures LastCopied(attrs, k).None? ==>
      (k in WithAttributes(variant, attrs) <==> k in variant) &&
      (k in variant ==> WithAttributes(variant, attrs)[k] == variant[k])
    ensures LastCopied(attrs, k).Some? ==>
      k in VariantAttributeKeys && k in WithAttributes(variant, attrs) &&
      WithAttributes(variant, attrs)[k] == Str(LastCopied(attrs, k).value)
    decreases |attrs|
  {
    if |attrs| > 0 {
      WithAttributesAt(variant, attrs[..|attrs| - 1], k);
    }
  }

  lemma WithAttributesAtOther(variant: Entity, attrs: seq<(string, string)>, k: string)
    requires k !in VariantAttributeKeys
    ensures k in WithAttributes(variant, attrs) <==> k in variant
    ensures k in variant ==> WithAttributes(variant, attrs)[k] == variant[k]
  {
    WithAttributesAt(variant, attrs, k);
  }

  function Availability(stockStatus: string): (a: string)
    ensures a == OutOfStock <==> stockStatus == "outofstock"
    ensures a == InStock <==> stockStatus != "outofstock"
  {
    if stockStatus == "outofstock" then OutOfStock else InStock
  }

  /** The sale-end date when its meta is set, otherwise 31 December of next year. */
  function PriceValidUntil(v: Variation, currentYear: nat): Date {
    if Falsy(v.saleEndMeta) then Date(currentYear + 1, 12, 31) else v.saleEndDate
  }

  function Offer(variant: Entity, v: Variation, env: Env): Entity {
    map[
      "@type" := Str("Offer"),
      "description" := if !EmptyAt(variant, "description") then variant["description"] else Str(""),
      "price" := v.price,
      "priceCurrency" := Str(env.currency),
      "availability" := Str(Availability(v.stockStatus)),
      "itemCondition" := Str(NewCondition),
      "priceValidUntil" := Str(FormatYmd(PriceValidUntil(v, env.currentYear))),
      "url" := Str(v.permalink)
    ]
  }

  /** `add_variable_offer`: the variant gains its offer; no other field changes. */
  function AddVariableOffer(v: Variation, variant: Entity, env: Env): (r: Entity)
    ensures "offers" in r && r["offers"].Obj?
    ensures forall k :: k != "offers" ==> (k in r <==> k in variant) && (k in r ==> r[k] == variant[k])
  {
    variant["offers" := Obj(Offer(variant, v, env))]
  }

  predicate ValidDate(d: Date) {
    1 <= d.month <= 12 && 1 <= d.day <= 31
  }

  /**
   * The offer is new, in stock unless the stock status is `outofstock`, and
   * described by the variant's description or by `''`.
   */
  lemma OfferFields(variant: Entity, v: Variation, env: Env)
    ensures var o := Offer(variant, v, env);
      && o["itemCondition"] == Str(NewCondition)
      && (o["availability"] == Str(OutOfStock) <==> v.stockStatus == "outofstock")
      && (o["availability"] == Str(InStock) <==> v.stockStatus != "outofstock")
      && (EmptyAt(variant, "description") ==> o["description"] == Str(""))
      && (!EmptyAt(variant, "description") ==> o["description"] == variant["description"])
      && o["priceCurrency"] == Str(env.currency) && o["url"] == Str(v.permalink)
  {
  }

  /** The offer is valid until a date that reads back as the sale end or as 31 December of next year. */
  lemma OfferValidUntil(variant: Entity, v: Variation, env: Env)
    requires ValidDate(v.saleEndDate)
    ensures var o := Offer(variant, v, env);
      && o["priceValidUntil"].Str? && |o["priceValidUntil"].s| >= 10
      && (Falsy(v.saleEndMeta) ==> ParseYmd(o["priceValidUntil"].s) == Date(env.currentYear + 1, 12, 31))
      && (!Falsy(v.saleEndMeta) ==> ParseYmd(o["priceValidUntil"].s) == v.saleEndDate)
  {
    var d := PriceValidUntil(v, env.currentYear);
    FormatYmdRoundTrip(d);
    assert Offer(variant, v, env)["priceValidUntil"] == Str(FormatYmd(d));
  }

  /** The entity `get_variant_data` returns for one variation. */
  function VariantData(v: Variation, p: Product, env: Env): Entity {
    var withAttributes := WithAttributes(BaseVariant(v, p, env), v.attributes);
    AddVariableGtin(GtinKey(env.settings), v.gtinMeta, AddVariableOffer(v, withAttributes, env))
  }

  /**
   * A variant entity is a `Product` with the variation's identity, its
   * rendered description and an offer built from that description.
   */
  lemma VariantDataIdentity(v: Variation, p: Product, env: Env)
    requires GtinKey(env.settings) !in VariantFields
    ensures var r := VariantData(v, p, env);
      && "@type" in r && r["@type"] == Str("Product")
      && "sku" in r && r["sku"] == Str(v.sku)
      && "name" in r && r["name"] == Str(v.name)
  {
    var base := BaseVariant(v, p, env);
    WithAttributesAtOther(base, v.attributes, "@type");
    WithAttributesAtOther(base, v.attributes, "sku");
    WithAttributesAtOther(base, v.attributes, "name");
  }

  /** The variant's image and rendered description, and the offer built from that description. */
  lemma VariantDataDescription(v: Variation, p: Product, env: Env)
    requires GtinKey(env.settings) !in VariantFields
    ensures var r := VariantData(v, p, env);
      && "image" in r && r["image"] == v.image
      && "description" in r && r["description"] == Str(env.renderDescription(GetVariantDescription(v, p)))
      && "offers" in r && r["offers"] == Obj(Offer(BaseVariant(v, p, env), v, env))
  {
    var base := BaseVariant(v, p, env);
    WithAttributesAtOther(base, v.attributes, "image");
    WithAttributesAtOther(base, v.attributes, "description");
    assert Offer(WithAttributes(base, v.attributes), v, env) == Offer(base, v, env);
  }

  /**
   * A variant entity carries each whitelisted attribute with the last truthy
   * value a variation attribute gives it, and no other attribute.
   */
  lemma VariantDataAttribute(v: Variation, p: Product, env: Env, k: string)
    requires k != GtinKey(env.settings) && k !in VariantFields
    ensures var r := VariantData(v, p, env);
      && (LastCopied(v.attributes, k).Some? ==> k in r && r[k] == Str(LastCopied(v.attributes, k).value))
      && (LastCopied(v.attributes, k).None? ==> k !in r)
  {
    WithAttributesAt(BaseVariant(v, p, env), v.attributes, k);
  }

  /** The variation's GTIN sits at the configured key unless it is empty or the key is `isbn`. */
  lemma VariantDataGtin(v: Variation, p: Product, env: Env)
    ensures var r := VariantData(v, p, env);
      && (!Falsy(v.gtinMeta) && GtinKey(env.settings) != IsbnKey ==>
            GtinKey(env.settings) in r && r[GtinKey(env.settings)] == Str(v.gtinMeta))
      && IsbnKey !in r
  {
    WithAttributesAtOther(BaseVariant(v, p, env), v.attributes, IsbnKey);
  }

  // ---------------------------------------------------------------------
  // The product group

  /** The keys the attribute loops of all variations append to `variesBy`, in order. */
  function CollectedKeys(vs: seq<Variation>): seq<string>
    decreases |vs|
  {
    if |vs| == 0 then [] else CollectedKeys(vs[..|vs| - 1]) + CopiedKeys(vs[|vs| - 1].attributes)
  }

  /** Some attribute of some variation is copied to key `k`. */
  predicate SomeVariationCopies(vs: seq<Variation>, k: string) {
    exists i :: 0 <= i < |vs| && LastCopied(vs[i].attributes, k).Some?
  }

  lemma {:induction false} CollectedKeysMembers(vs: seq<Variation>, k: string)
    ensures k in CollectedKeys(vs) <==> SomeVariationCopies(vs, k)
    decreases |vs|
  {
    if |vs| > 0 {
      var init := vs[..|vs| - 1];
      CollectedKeysMembers(init, k);
      CopiedKeysMembers(vs[|vs| - 1].attributes, k);
      if SomeVariationCopies(vs, k) && !LastCopied(vs[|vs| - 1].attributes, k).Some? {
        var i :| 0 <= i < |vs| && LastCopied(vs[i].attributes, k).Some?;
        assert init[i] == vs[i];
      }
      if SomeVariationCopies(init, k) {
        var i :| 0 <= i < |init| && LastCopied(init[i].attributes, k).Some?;
        assert vs[i] == init[i];
      }
    }
  }

  lemma CollectedKeysStep(vs: seq<Variation>, i: nat)
    requires i < |vs|
    ensures CollectedKeys(vs[..i + 1]) == CollectedKeys(vs[..i]) + CopiedKeys(vs[i].attributes)
  {
    assert vs[..i + 1][..i] == vs[..i];
  }

  /** One more variation's attribute loop extends the collected keys by that variation's copied keys. */
  lemma CollectedKeysExtend(start: seq<string>, before: seq<string>, after: seq<string>, vs: seq<Variation>, i: nat)
    requires i < |vs|
    requires before == start + CollectedKeys(vs[..i])
    requires after == before + CopiedKeys(vs[i].attributes)
    ensures after == start + CollectedKeys(vs[..i + 1])
  {
    CollectedKeysStep(vs, i);
  }

  /** The variant entities of the variations, in order. */
  function VariantsData(vs: seq<Variation>, p: Product, env: Env): (r: seq<Entity>)
    ensures |r| == |vs|
    ensures forall i :: 0 <= i < |vs| ==> r[i] == VariantData(vs[i], p, env)
  {
    MapSeq(v => VariantData(v, p, env), vs)
  }

  /** `k` is an accepted attribute naming the schema.org property `x`. */
  predicate NamesProperty(k: string, x: string) {
    k in VariesByProperties && VariesByProperties[k] == x
  }

  /** The loop of `add_varies_by`: accepted keys mapped to their properties, in order. */
  function MapVariesBy(keys: seq<string>): seq<string>
    decreases |keys|
  {
    if |keys| == 0 then []
    else
      var k := keys[|keys| - 1];
      MapVariesBy(keys[..|keys| - 1]) + (if k in VariesByProperties then [VariesByProperties[k]] else [])
  }

  /** The `variesBy` list for the accumulated keys: unique keys, mapped, then made unique again. */
  function VariesByList(acc: seq<string>): seq<string> {
    Unique(MapVariesBy(Unique(acc)))
  }

  /** `add_varies_by`: the list is set only when it is non-empty. */
  function WithVariesBy(e: Entity, acc: seq<string>): Entity {
    if |acc| == 0 then e
    else
      var l := VariesByList(acc);
      if |l| > 0 then e["variesBy" := List(StrList(l))] else e
  }

  lemma {:induction false} MapVariesByMembers(keys: seq<string>, x: string)
    ensures x in MapVariesBy(keys) <==> exists k :: k in keys && NamesProperty(k, x)
    decreases |keys|
  {
    if |keys| > 0 {
      var init, last := keys[..|keys| - 1], keys[|keys| - 1];
      MapVariesByMembers(init, x);
      assert keys == init + [last];
      if x in MapVariesBy(keys) && x !in MapVariesBy(init) {
        assert NamesProperty(last, x);
      }
      if exists k :: k in keys && NamesProperty(k, x) {
        var k :| k in keys && NamesProperty(k, x);
        if k != last {
          assert k in init;
        }
      }
    }
  }

  lemma VariesByPropertiesInjective(a: string, b: string)
    requires a in VariesByProperties && b in VariesByProperties && a != b
    ensures VariesByProperties[a] != VariesByProperties[b]
  {
  }

  lemma {:induction false} MapVariesByDistinct(keys: seq<string>)
    requires Distinct(keys)
    ensures Distinct(MapVariesBy(keys))
    decreases |keys|
  {
    if |keys| > 0 {
      var init, last := keys[..|keys| - 1], keys[|keys| - 1];
      var m := MapVariesBy(init);
      MapVariesByDistinct(init);
      if last in VariesByProperties {
        var x := VariesByProperties[last];
        if x in m {
          MapVariesByMembers(init, x);
          var k :| k in init && NamesProperty(k, x);
          VariesByPropertiesInjective(k, last);
        }
        assert MapVariesBy(keys) == m + [x];
      }
    }
  }

  /**
   * `variesBy` holds schema.org properties of accepted attributes only, each
   * once; it holds a property exactly when some accumulated key names it;
   * it is empty exactly when no accumulated key is accepted; and the second
   * `array_unique` changes nothing.
   */
  lemma VariesByFacts(acc: seq<string>)
    ensures Distinct(VariesByList(acc))
    ensures VariesByList(acc) == MapVariesBy(Unique(acc))
    ensures forall x :: x in VariesByList(acc) <==> exists k :: k in acc && NamesProperty(k, x)
    ensures forall x :: x in VariesByList(acc) ==> x in VariesByProperties.Values
    ensures |VariesByList(acc)| == 0 <==> forall k :: k in acc ==> k !in VariesByProperties
  {
    var u := Unique(acc);
    UniqueMembers(acc);
    MapVariesByDistinct(u);
    UniqueOfDistinct(MapVariesBy(u));
    forall x
      ensures x in VariesByList(acc) <==> exists k :: k in acc && NamesProperty(k, x)
    {
      MapVariesByMembers(u, x);
    }
    forall k | k in acc && k in VariesByProperties
      ensures VariesByProperties[k] in VariesByList(acc)
    {
      assert NamesProperty(k, VariesByProperties[k]);
    }
    if |VariesByList(acc)| > 0 {
      var x := VariesByList(acc)[0];
      assert x in VariesByList(acc);
    }
  }

  /** The loop of `add_varies_by` on a prefix of the keys yields a prefix of its output. */
  lemma {:induction false} MapVariesByPrefix(keys: seq<string>, n: nat)
    requires n <= |keys|
    ensures MapVariesBy(keys[..n]) <= MapVariesBy(keys)
    decreases |keys|
  {
    if n < |keys| {
      var init := keys[..|keys| - 1];
      assert init[..n] == keys[..n];
      MapVariesByPrefix(init, n);
    } else {
      assert keys[..n] == keys;
    }
  }

  /**
   * `variesBy` lists properties in the order their keys were first
   * collected: the keys collected so far give a prefix of the list that
   * more keys give.
   */
  lemma VariesByListPrefix(acc: seq<string>, n: nat)
    requires n <= |acc|
    ensures VariesByList(acc[..n]) <= VariesByList(acc)
  {
    var u1, u := Unique(acc[..n]), Unique(acc);
    UniquePrefix(acc, n);
    assert u[..|u1|] == u1;
    MapVariesByPrefix(u, |u1|);
    var m1, m := MapVariesBy(u1), MapVariesBy(u);
    assert m[..|m1|] == m1;
    UniquePrefix(m, |m1|);
  }

  /**
   * Keys collected from variant attributes never produce `suggestedAge` or
   * `suggestedGender`, and `weight`, although copied onto variants, never
   * reaches `variesBy`.
   */
  lemma VariesByFromVariantAttributes(acc: seq<string>)
    requires forall i :: 0 <= i < |acc| ==> acc[i] in VariantAttributeKeys
    ensures SuggestedAge !in VariesByList(acc) && SuggestedGender !in VariesByList(acc)
    ensures (forall k :: k in acc ==> k == "weight") ==> |VariesByList(acc)| == 0
  {
    VariesByFacts(acc);
    forall k | k in acc
      ensures !NamesProperty(k, SuggestedAge) && !NamesProperty(k, SuggestedGender)
    {
    }
  }

  /** A `WooCommerceProduct` schema is stored for the product. */
  predicate HasWooCommerceSchema(schemas: seq<Entity>) {
    exists i :: 0 <= i < |schemas| && "@type" in schemas[i] && schemas[i]["@type"] == Str(WooCommerceProductType)
  }

  /** When `add_variations_data` replaces the entity by a group. */
  predicate Eligible(p: Product, schemas: seq<Entity>, defaultSchemaType: string) {
    && p.productType == "variable"
    && (HasWooCommerceSchema(schemas) || defaultSchemaType == WooCommerceProductType)
    && |p.availableVariations| > 0
  }

  function GroupIdentity(entity: Entity, p: Product): Entity {
    entity["@type" := Str(ProductGroupType)]
          ["url" := Str(p.permalink)]
          ["productGroupID" := if !EmptyAt(entity, "sku") then entity["sku"] else Int(p.id)]
  }

  /**
   * The product's own GTIN written into `offers` through a reference, as at
   * line 284: a missing `offers` starts as null and, like `false`, becomes
   * an array holding the GTIN; a list or another scalar is left as it is.
   */
  function WithOfferGtin(e: Entity, p: Product, env: Env): Entity {
    var key := GtinKey(env.settings);
    if Falsy(p.gtinMeta) || key == IsbnKey then
      if "offers" in e then e else e["offers" := Null]
    else
      var offers := if "offers" in e then e["offers"] else Null;
      match offers
      case Obj(m) => e["offers" := Obj(m[key := Str(p.gtinMeta)])]
      case Null => e["offers" := Obj(map[key := Str(p.gtinMeta)])]
      case Bool(b) => if b then e else e["offers" := Obj(map[key := Str(p.gtinMeta)])]
      case _ => e
  }

  /** The entity `add_variations_data` returns for an eligible product, given the accumulated `variesBy` keys. */
  function GroupEntity(entity: Entity, p: Product, env: Env, acc: seq<string>): Entity {
    var e := WithOfferGtin(GroupIdentity(entity, p), p, env);
    WithVariesBy(e, acc)["hasVariant" := List(ObjList(VariantsData(p.availableVariations, p, env)))] - {"offers"}
  }

  /**
   * The group is a `ProductGroup` at the product's permalink, identified by
   * the entity's SKU when that is non-empty and by the product id otherwise,
   * and it has no `offers`.
   */
  lemma GroupEntityShape(entity: Entity, p: Product, env: Env, acc: seq<string>)
    ensures var r := GroupEntity(entity, p, env, acc);
      && "@type" in r && r["@type"] == Str(ProductGroupType)
      && "url" in r && r["url"] == Str(p.permalink)
      && "productGroupID" in r
      && r["productGroupID"] == (if !EmptyAt(entity, "sku") then entity["sku"] else Int(p.id))
      && "offers" !in r
  {
    GroupEntityFromIdentity(entity, p, env, acc, "@type");
    GroupEntityFromIdentity(entity, p, env, acc, "url");
    GroupEntityFromIdentity(entity, p, env, acc, "productGroupID");
  }

  /** A field the group does not set itself is the field of `GroupIdentity`. */
  lemma GroupEntityFromIdentity(entity: Entity, p: Product, env: Env, acc: seq<string>, k: string)
    requires k != "offers" && k != "variesBy" && k != "hasVariant"
    ensures var r := GroupEntity(entity, p, env, acc);
      var g := GroupIdentity(entity, p);
      (k in r <==> k in g) && (k in r ==> r[k] == g[k])
  {
    var g := GroupIdentity(entity, p);
    var e := WithOfferGtin(g, p, env);
    assert (k in e <==> k in g) && (k in e ==> e[k] == g[k]);
  }

  /** `hasVariant` has one entity per variation, in order. */
  lemma GroupEntityVariants(entity: Entity, p: Product, env: Env, acc: seq<string>)
    ensures var r := GroupEntity(entity, p, env, acc);
      && "hasVariant" in r && r["hasVariant"].List?
      && |r["hasVariant"].items| == |p.availableVariations|
      && (forall i :: 0 <= i < |p.availableVariations| ==>
            r["hasVariant"].items[i] == Obj(VariantData(p.availableVariations[i], p, env)))
  {
  }

  /**
   * `variesBy` is present only when the input entity had one or some
   * accumulated key is accepted, and then it lists the accepted properties.
   */
  lemma GroupEntityVariesBy(entity: Entity, p: Product, env: Env, acc: seq<string>)
    ensures var r := GroupEntity(entity, p, env, acc);
      && ("variesBy" in r <==> "variesBy" in entity || exists k :: k in acc && k in VariesByProperties)
      && ((exists k :: k in acc && k in VariesByProperties) ==> r["variesBy"] == List(StrList(VariesByList(acc))))
      && ((forall k :: k in acc ==> k !in VariesByProperties) && "variesBy" in entity ==> r["variesBy"] == entity["variesBy"])
      && ((exists k :: k in acc && k in VariesByProperties) ==> |VariesByList(acc)| > 0)
  {
    VariesByFacts(acc);
    var g := GroupIdentity(entity, p);
    var e := WithOfferGtin(g, p, env);
    assert "variesBy" in e <==> "variesBy" in entity;
    assert "variesBy" in entity ==> e["variesBy"] == entity["variesBy"];
  }

  /** Fields the group does not set are those of the input entity. */
  lemma GroupEntityKeepsOtherFields(entity: Entity, p: Product, env: Env, acc: seq<string>, k: string)
    requires k !in GroupKeys && k != "offers"
    ensures var r := GroupEntity(entity, p, env, acc);
      (k in r <==> k in entity) && (k in r ==> r[k] == entity[k])
  {
    GroupEntityFromIdentity(entity, p, env, acc, k);
  }

  const GroupKeys: seq<string> := ["@type", "url", "productGroupID", "hasVariant", "variesBy"]

  /** Writing `offers` changes nothing once `offers` is removed. */
  lemma WithOfferGtinOnlyOffers(g: Entity, p: Product, env: Env)
    ensures WithOfferGtin(g, p, env) - {"offers"} == g - {"offers"}
  {
  }

  lemma WithVariesByRespectsOffers(e1: Entity, e2: Entity, acc: seq<string>)
    requires e1 - {"offers"} == e2 - {"offers"}
    ensures WithVariesBy(e1, acc) - {"offers"} == WithVariesBy(e2, acc) - {"offers"}
  {
    if |acc| > 0 && |VariesByList(acc)| > 0 {
      var l := List(StrList(VariesByList(acc)));
      assert e1["variesBy" := l] - {"offers"} == (e1 - {"offers"})["variesBy" := l];
      assert e2["variesBy" := l] - {"offers"} == (e2 - {"offers"})["variesBy" := l];
    }
  }

  lemma SetThenRemove(e: Entity, v: Value)
    ensures e["hasVariant" := v] - {"offers"} == (e - {"offers"})["hasVariant" := v]
  {
  }

  /** The product GTIN written into `offers` at line 284 never reaches the output. */
  lemma ProductGtinUnobservable(entity: Entity, p: Product, env: Env, acc: seq<string>, gtin: string)
    ensures GroupEntity(entity, p, env, acc) == GroupEntity(entity, p.(gtinMeta := gtin), env, acc)
  {
    var q := p.(gtinMeta := gtin);
    var vs := p.availableVariations;
    assert VariantsData(vs, p, env) == VariantsData(vs, q, env) by {
      forall i | 0 <= i < |vs|
        ensures VariantData(vs[i], p, env) == VariantData(vs[i], q, env)
      {
        assert BaseVariant(vs[i], p, env) == BaseVariant(vs[i], q, env);
      }
    }
    var h := List(ObjList(VariantsData(vs, p, env)));
    var g := GroupIdentity(entity, p);
    assert GroupIdentity(entity, q) == g;
    var e1, e2 := WithOfferGtin(g, p, env), WithOfferGtin(g, q, env);
    WithOfferGtinOnlyOffers(g, p, env);
    WithOfferGtinOnlyOffers(g, q, env);
    WithVariesByRespectsOffers(e1, e2, acc);
    SetThenRemove(WithVariesBy(e1, acc), h);
    SetThenRemove(WithVariesBy(e2, acc), h);
  }

  /**
   * On a fresh instance the group's `variesBy` holds a property exactly when
   * some variation has a truthy attribute that names it.
   */
  lemma FreshVariesBy(vs: seq<Variation>, x: string)
    ensures x in VariesByList(CollectedKeys(vs)) <==> exists k :: NamesProperty(k, x) && SomeVariationCopies(vs, k)
  {
    VariesByFacts(CollectedKeys(vs));
    if x in VariesByList(CollectedKeys(vs)) {
      var k :| k in CollectedKeys(vs) && NamesProperty(k, x);
      CollectedKeysMembers(vs, k);
    }
    if exists k :: NamesProperty(k, x) && SomeVariationCopies(vs, k) {
      var k :| NamesProperty(k, x) && SomeVariationCopies(vs, k);
      CollectedKeysMembers(vs, k);
    }
  }

  /**
   * `variesBy` is never reset: keys collected while grouping an earlier
   * product still show up in a later product's group.
   */
  lemma VariesByCarriesOver(earlier: seq<string>, current: seq<string>, k: string)
    requires k in earlier && k in VariesByProperties
    ensures VariesByProperties[k] in VariesByList(earlier + current)
  {
    VariesByFacts(earlier + current);
    assert k in earlier + current;
    assert NamesProperty(k, VariesByProperties[k]);
  }

  // ---------------------------------------------------------------------
  // The class

  class WooCommerce {
    /** Attribute keys collected by every attribute loop run on this instance; never reset. */
    var variesBy: seq<string>

    ghost predicate Valid()
      reads this
    {
      forall i :: 0 <= i < |variesBy| ==> variesBy[i] in VariantAttributeKeys
    }

    constructor ()
      ensures Valid() && variesBy == []
    {
      variesBy := [];
    }

    /** Copies the whitelisted attributes onto the variant and records their keys. */
    method AddVariableAttributes(variation: Variation, variant: Entity) returns (r: Entity)
      requires Valid()
      modifies this
      ensures Valid()
      ensures variesBy == old(variesBy) + CopiedKeys(variation.attributes)
      ensures r == WithAttributes(variant, variation.attributes)
    {
      var attrs := variation.attributes;
      r := variant;
      if |attrs| == 0 {
        return;
      }
      for i := 0 to |attrs|
        invariant r == WithAttributes(variant, attrs[..i])
        invariant variesBy == old(variesBy) + CopiedKeys(attrs[..i])
      {
        assert attrs[..i + 1][..i] == attrs[..i];
        var (rawKey, value) := attrs[i];
        if Falsy(value) {
          continue;
        }
        var key := AttributeKey(rawKey);
        if key !in VariantAttributeKeys {
          continue;
        }
        r := r[key := Str(value)];
        variesBy := variesBy + [key];
      }
      assert attrs[..|attrs|] == attrs;
    }

    /** Builds the entity of one variation. */
    method GetVariantData(variation: Variation, product: Product, env: Env) returns (r: Entity)
      requires Valid()
      modifies this
      ensures Valid()
      ensures variesBy == old(variesBy) + CopiedKeys(variation.attributes)
      ensures r == VariantData(variation, product, env)
    {
      var description := GetVariantDescription(variation, product);
      description := env.renderDescription(description);
      r := map[
        "@type" := Str("Product"),
        "sku" := Str(variation.sku),
        "name" := Str(variation.name),
        "description" := Str(description),
        "image" := variation.image
      ];
      r := AddVariableAttributes(variation, r);
      r := AddVariableOffer(variation, r, env);
      r := AddVariableGtin(GtinKey(env.settings), variation.gtinMeta, r);
    }

    /**
     * Sets `variesBy` to the schema.org properties of the accepted keys
     * collected so far, each once, or leaves the entity alone when no
     * collected key is accepted. Since the instance only ever collects
     * variant attribute keys, `suggestedAge` and `suggestedGender` never
     * appear.
     */
    method AddVariesBy(entity: Entity) returns (r: Entity)
      requires Valid()
      ensures r == WithVariesBy(entity, variesBy)
      ensures (exists k :: k in variesBy && k in VariesByProperties) ==>
        r == entity["variesBy" := List(StrList(VariesByList(variesBy)))]
      ensures (forall k :: k in variesBy ==> k !in VariesByProperties) ==> r == entity
      ensures SuggestedAge !in VariesByList(variesBy) && SuggestedGender !in VariesByList(variesBy)
    {
      VariesByFacts(variesBy);
      VariesByFromVariantAttributes(variesBy);
      if |variesBy| == 0 {
        return entity;
      }
      var keys := Unique(variesBy);
      var properties: seq<string> := [];
      for i := 0 to |keys|
        invariant properties == MapVariesBy(keys[..i])
      {
        assert keys[..i + 1][..i] == keys[..i];
        if keys[i] in VariesByProperties {
          properties := properties + [VariesByProperties[keys[i]]];
        }
      }
      assert keys[..|keys|] == keys;
      properties := Unique(properties);
      r := entity;
      if |properties| > 0 {
        r := r["variesBy" := List(StrList(properties))];
      }
    }

    /** The loop of `add_variations_data` that builds one entity per variation, in order. */
    method BuildVariants(product: Product, env: Env) returns (variants: seq<Entity>)
      requires Valid()
      modifies this
      ensures Valid()
      ensures variesBy == old(variesBy) + CollectedKeys(product.availableVariations)
      ensures variants == VariantsData(product.availableVariations, product, env)
    {
      var variations := product.availableVariations;
      variants := [];
      for i := 0 to |variations|
        invariant Valid()
        invariant variants == VariantsData(variations[..i], product, env)
        invariant variesBy == old(variesBy) + CollectedKeys(variations[..i])
      {
        ghost var before := variesBy;
        var variant := GetVariantData(variations[i], product, env);
        MapSeqSnoc(v => VariantData(v, product, env), variations, i);
        variants := variants + [variant];
        CollectedKeysExtend(old(variesBy), before, variesBy, variations, i);
      }
      assert variations[..|variations|] == variations;
    }

    /** Turns the entity of an eligible variable product into its product group. */
    method AddVariationsData(entity: Entity, product: Product, schemas: seq<Entity>, defaultSchemaType: string, env: Env)
      returns (r: Entity)
      requires Valid()
      modifies this
      ensures Valid()
      ensures !Eligible(product, schemas, defaultSchemaType) ==> r == entity && variesBy == old(variesBy)
      ensures Eligible(product, schemas, defaultSchemaType) ==>
        variesBy == old(variesBy) + CollectedKeys(product.availableVariations) &&
        r == GroupEntity(entity, product, env, variesBy)
    {
      if product.productType != "variable" {
        return entity;
      }
      if !HasWooCommerceSchema(schemas) && defaultSchemaType != WooCommerceProductType {
        return entity;
      }
      var variations := product.availableVariations;
      if |variations| == 0 {
        return entity;
      }
      r := GroupIdentity(entity, product);
      r := WithOfferGtin(r, product, env);
      var variants := BuildVariants(product, env);
      r := AddVariesBy(r);
      r := r["hasVariant" := List(ObjList(variants))];
      r := r - {"offers"};
    }
  }
}
