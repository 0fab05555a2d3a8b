# Rank Math Pro: WooCommerce schema and news sitemap, modelled in Dafny

This project models three parts of the Rank Math Pro WordPress plugin.

1. **The WooCommerce structured data** (class `WooCommerce`). Its filters:
   - set the GTIN and the brand of a product entity;
   - drop hidden products from the sitemap;
   - mark hidden products and empty product archives `noindex, nofollow`;
   - turn the entity of a variable product into a schema.org
     `ProductGroup` whose `hasVariant` holds one `Product` entity per
     available variation.

   The variation attribute keys pass through the instance field
   `$varies_by`. That field accumulates across calls and is never reset;
   `add_varies_by` then turns it into the group's `variesBy` list.
2. **The news sitemap term helpers** (class `News_Sitemap_Helper`):
   - the term query behind the "exclude terms" picker;
   - the filter that turns the stored selection into the picker's list;
   - the filter that turns the picker's JSON back into the stored selection.
3. **The news sitemap decisions** (class `News_Sitemap`):
   - the Google News `noindex` tag;
   - the promotion of news posts to `NewsArticle`;
   - the copyright fields of a news article;
   - the publication name.

The modules follow the source files:

- `php_values.dfy` (module `PhpValues`): PHP values and the built-ins the
  filters rely on. These are `empty()`, the `(string)` cast, `str_replace`
  with an empty replacement, `array_unique`, `array_map`, `stripslashes`
  and `date('Y-m-d')`.
- `woocommerce.dfy` (module `WooCommercePro`): the filters as functions, and
  the class `WooCommerce`. The class has the field `variesBy` and the
  methods that update it.
- `news_sitemap_helper.dfy` (module `NewsSitemapHelper`).
- `news_sitemap.dfy` (module `NewsSitemap`).

Entities are PHP associative arrays, modelled as `map<string, Value>`.
Lists the source iterates in order are sequences.

What the host would return becomes an input:

- **Post meta, options and WooCommerce getters** are fields of `Product`,
  `Variation`, `Settings`, `PageContext` and `SitemapObject`.
- **Description rendering** (shortcodes, then tag stripping) is the opaque
  function `Env.renderDescription`.
- **Timestamps** are supplied already resolved to a calendar `Date`.
- **Host calls** are function-typed parameters:
  - `get_terms`;
  - `json_decode` of the submitted selection;
  - `has_term` for the current post.

Behaviour of the code worth noting:

- **Order of `variesBy`.** `variesBy` lists properties in the order their
  keys were first collected (`VariesByListPrefix`).
- **When the `Book` type is forced.** The `['Product', 'Book']` type is set
  only when the configured GTIN key was empty. The configured GTIN and
  `isbn` can both be present (`AddGtinInSchema`).
- **`pa_` removal.** Every `pa_` in the key is removed, wherever it occurs
  (`AttributeKeyInner`).
- **Which keys `variesBy` draws on.** `varies_by` holds every key collected
  on the instance, including keys from products grouped earlier
  (`VariesByCarriesOver`).
- **Line 284 has no visible effect.** That line writes the product's GTIN
  into `offers`, and `offers` is then removed. The output is the same
  whatever that GTIN is (`ProductGtinUnobservable`).

## Model

| member | source | states |
|---|---|---|
| PhpValues.Empty | includes/modules/news-sitemap/class-news-sitemap.php:85 | no contract of its own (`empty()`: null, `false`, `0`, `''`, `'0'` and an empty array); the contracts that speak of empty values, such as `IsPostIndexable`, `PublicationName` and `AddCopyrightsData`, state its uses |
| PhpValues.EmptyAt | includes/modules/woocommerce/class-woocommerce-pro.php:169 | no contract of its own (`empty($entity[$key])`: the key is missing or its value is empty); `AddGtinInSchema`, `GroupEntityShape` and `AddCopyrightsData` state its uses |
| PhpValues.Falsy | includes/modules/news-sitemap/class-news-sitemap-helper.php:87 | no contract of its own (a string PHP treats as false: `''` or `'0'`); `SanitizeExcludeTermsValue`, `AddVariableGtin` and `GetVariantDescription` state its uses |
| PhpValues.NatToString | includes/modules/news-sitemap/class-news-sitemap-helper.php:70 | the decimal rendering of a natural number is a non-empty string of digits, one digit exactly below 10; `DigitsRoundTrip` reads it back |
| PhpValues.IntToString | includes/modules/news-sitemap/class-news-sitemap-helper.php:70 | the decimal rendering of an integer is non-empty; `IntToStringInjective` states that it determines the integer |
| PhpValues.CastToString | includes/modules/news-sitemap/class-news-sitemap-helper.php:70 | `(string)` is defined on every value except an object; an integer renders in decimal and a string is unchanged |
| PhpValues.IntToStringInjective | includes/modules/news-sitemap/class-news-sitemap-helper.php:70 | two integers with the same decimal rendering are equal |
| PhpValues.DigitsRoundTrip | includes/modules/woocommerce/class-woocommerce-pro.php:425 | the decimal rendering of a number reads back as that number |
| PhpValues.FormatYmd | includes/modules/woocommerce/class-woocommerce-pro.php:425 | `date('Y-m-d')` gives at least ten characters; `FormatYmdRoundTrip` states that it reads back |
| PhpValues.FormatYmdRoundTrip | includes/modules/woocommerce/class-woocommerce-pro.php:425 | a `Y-m-d` date with a two-digit month and day reads back as the same date |
| PhpValues.StrRemoveAbsent | includes/modules/woocommerce/class-woocommerce-pro.php:448 | `str_replace` leaves a string that lacks one of the pattern's characters unchanged |
| PhpValues.StrRemoveLeading | includes/modules/woocommerce/class-woocommerce-pro.php:448 | a leading occurrence of the pattern is removed |
| PhpValues.StrRemove | includes/modules/woocommerce/class-woocommerce-pro.php:448 | `str_replace` with an empty replacement never lengthens a string; `StrRemoveAbsent` and `StrRemoveLeading` state what it removes |
| PhpValues.StripSlashes | includes/modules/news-sitemap/class-news-sitemap-helper.php:95 | `stripslashes` never lengthens a string and leaves a string without backslashes unchanged |
| PhpValues.UniqueMembers | includes/modules/woocommerce/class-woocommerce-pro.php:377 | `array_unique` keeps exactly the members of the list, each once |
| PhpValues.UniqueOfDistinct | includes/modules/woocommerce/class-woocommerce-pro.php:384 | `array_unique` leaves a list without duplicates unchanged |
| PhpValues.UniqueIdempotent | includes/modules/woocommerce/class-woocommerce-pro.php:384 | `array_unique` applied twice gives what it gives once |
| PhpValues.UniquePrefix | includes/modules/woocommerce/class-woocommerce-pro.php:377 | `array_unique` keeps first occurrences in their original order: a prefix of the list gives a prefix of the result |
| PhpValues.Unique | includes/modules/woocommerce/class-woocommerce-pro.php:377-384 | `array_unique` never lengthens a list; `UniqueMembers`, `UniqueOfDistinct` and `UniqueIdempotent` state what it keeps, and `UniquePrefix` the order |
| PhpValues.MapSeq | includes/modules/news-sitemap/class-news-sitemap-helper.php:91-96 | `array_map` keeps the length and maps each element in place |
| WooCommercePro.GtinKey | includes/modules/woocommerce/class-woocommerce-pro.php:168 | no contract of its own (the configured GTIN key, `gtin8` by default); `AddVariableGtin`, `VariantDataGtin` and `ProductGtinUnobservable` state its uses |
| WooCommercePro.RemoveHiddenProducts | includes/modules/woocommerce/class-woocommerce-pro.php:76-88 | the sitemap entry is dropped iff it is a post of type `product`, the setting is on and the product is hidden; otherwise the entry is returned unchanged |
| WooCommercePro.HiddenProductPage | includes/modules/woocommerce/class-woocommerce-pro.php:102-111 | no contract of its own (a product page whose catalog visibility is `hidden`); `Robots` states its effect |
| WooCommercePro.EmptyProductArchive | includes/modules/woocommerce/class-woocommerce-pro.php:114 | no contract of its own (a product archive with no posts on the page whose term has products); `Robots` states its effect |
| WooCommercePro.Robots | includes/modules/woocommerce/class-woocommerce-pro.php:97-122 | robots change only to `noindex, nofollow`, and become it iff the setting is on and the page is a hidden product or an empty product archive whose term has products (or they already were) |
| WooCommercePro.AddCustomProductBrand | includes/modules/woocommerce/class-woocommerce-pro.php:131-133 | the custom brand replaces the brand iff the brand setting is `custom` |
| WooCommercePro.AddGtinInSchema | includes/modules/woocommerce/class-woocommerce-pro.php:167-191 | a non-empty value at the GTIN key is kept; otherwise a truthy product GTIN is written; a non-empty `isbn` forces `['Product','Book']`, and without one `@type` is as it was; a falsy product GTIN leaves the GTIN key as it was; no other key changes |
| WooCommercePro.AddGtinInSchemaIdempotent | includes/modules/woocommerce/class-woocommerce-pro.php:167-191 | running the GTIN filter twice gives what running it once gives |
| WooCommercePro.AddVariableGtin | includes/modules/woocommerce/class-woocommerce-pro.php:394-402 | the entity is unchanged when the GTIN is empty or the key is `isbn`; otherwise only the configured key is set |
| WooCommercePro.GetVariantDescription | includes/modules/woocommerce/class-woocommerce-pro.php:347-353 | the variation's description, else the product's short description, else its description; empty iff all three are |
| WooCommercePro.BaseVariant | includes/modules/woocommerce/class-woocommerce-pro.php:322-330 | no contract of its own; `VariantDataIdentity` and `VariantDataDescription` state the fields it sets |
| WooCommercePro.AttributeKeyOfTaxonomy | includes/modules/woocommerce/class-woocommerce-pro.php:448 | `pa_color` and `color` both become `color` |
| WooCommercePro.AttributeKeyInner | includes/modules/woocommerce/class-woocommerce-pro.php:448 | `pa_` is removed in the middle of a key too (`copa_lor` becomes `color`) |
| WooCommercePro.AttributeKey | includes/modules/woocommerce/class-woocommerce-pro.php:448 | an attribute key never grows; `AttributeKeyOfTaxonomy` and `AttributeKeyInner` state what it removes |
| WooCommercePro.CopiesAttribute | includes/modules/woocommerce/class-woocommerce-pro.php:443-452 | no contract of its own (a truthy value under a whitelisted key); `CopiedKeysMembers` and `WithAttributesAt` state its effect |
| WooCommercePro.CopiedKeys | includes/modules/woocommerce/class-woocommerce-pro.php:443-455 | the attribute loop appends at most one key per attribute, and only whitelisted keys |
| WooCommercePro.CopiedKeysMembers | includes/modules/woocommerce/class-woocommerce-pro.php:443-455 | a key is appended iff some attribute with a truthy value is copied to it |
| WooCommercePro.WithAttributesAt | includes/modules/woocommerce/class-woocommerce-pro.php:443-455 | each whitelisted key gets the last truthy value copied to it; every other field keeps its value |
| WooCommercePro.WithAttributes | includes/modules/woocommerce/class-woocommerce-pro.php:438-456 | the attribute loop only adds fields, and only whitelisted ones; `WithAttributesAt` states their values |
| WooCommercePro.Availability | includes/modules/woocommerce/class-woocommerce-pro.php:423 | `OutOfStock` iff the stock status is `outofstock`, else `InStock` |
| WooCommercePro.PriceValidUntil | includes/modules/woocommerce/class-woocommerce-pro.php:413-416 | no contract of its own; `OfferValidUntil` states the date |
| WooCommercePro.Offer | includes/modules/woocommerce/class-woocommerce-pro.php:418-427 | no contract of its own; `OfferFields` and `OfferValidUntil` state its fields |
| WooCommercePro.AddVariableOffer | includes/modules/woocommerce/class-woocommerce-pro.php:412-428 | the variant gains an `offers` array and no other field changes |
| WooCommercePro.OfferFields | includes/modules/woocommerce/class-woocommerce-pro.php:418-427 | the offer is `NewCondition`, its availability follows the stock status, its description is the variant's or `''`, and it carries the currency and the variation URL |
| WooCommercePro.OfferValidUntil | includes/modules/woocommerce/class-woocommerce-pro.php:413-425 | `priceValidUntil` reads back as the sale-end date when that meta is truthy, else as 31 December of next year |
| WooCommercePro.VariantDataIdentity | includes/modules/woocommerce/class-woocommerce-pro.php:324-330 | a variant is a `Product` with the variation's SKU and name |
| WooCommercePro.VariantDataDescription | includes/modules/woocommerce/class-woocommerce-pro.php:322-333 | a variant has the variation's image and rendered description, and an offer built from that description |
| WooCommercePro.VariantDataAttribute | includes/modules/woocommerce/class-woocommerce-pro.php:438-456 | a variant carries an attribute iff some truthy attribute is copied to it, with the last such value |
| WooCommercePro.VariantDataGtin | includes/modules/woocommerce/class-woocommerce-pro.php:394-402 | a variant carries a truthy variation GTIN at the configured key unless the key is `isbn`, and never an `isbn` field |
| WooCommercePro.VariantData | includes/modules/woocommerce/class-woocommerce-pro.php:321-337 | no contract of its own; `VariantDataIdentity`, `VariantDataDescription`, `VariantDataAttribute` and `VariantDataGtin` state the variant, and `GetVariantData` returns it |
| WooCommercePro.VariantsData | includes/modules/woocommerce/class-woocommerce-pro.php:286-289 | one variant per variation, in input order |
| WooCommercePro.CollectedKeys | includes/modules/woocommerce/class-woocommerce-pro.php:286-289 | no contract of its own (the keys every variation's attribute loop appends, in order); `CollectedKeysMembers`, `BuildVariants` and `FreshVariesBy` state it |
| WooCommercePro.CollectedKeysMembers | includes/modules/woocommerce/class-woocommerce-pro.php:286-289 | grouping a product collects a key iff some variation copies an attribute to it |
| WooCommercePro.MapVariesByMembers | includes/modules/woocommerce/class-woocommerce-pro.php:376-381 | the loop of `add_varies_by` yields a property iff some key names it |
| WooCommercePro.MapVariesByDistinct | includes/modules/woocommerce/class-woocommerce-pro.php:376-381 | distinct keys map to distinct properties |
| WooCommercePro.MapVariesBy | includes/modules/woocommerce/class-woocommerce-pro.php:376-381 | no contract of its own; `MapVariesByMembers` and `MapVariesByDistinct` state what it yields |
| WooCommercePro.VariesByList | includes/modules/woocommerce/class-woocommerce-pro.php:377-384 | no contract of its own; `VariesByFacts` states the list and `VariesByListPrefix` its order |
| WooCommercePro.MapVariesByPrefix | includes/modules/woocommerce/class-woocommerce-pro.php:376-381 | the loop of `add_varies_by` on a prefix of the keys yields a prefix of its output |
| WooCommercePro.VariesByListPrefix | includes/modules/woocommerce/class-woocommerce-pro.php:362-386 | `variesBy` lists properties in the order their keys were first collected: the keys collected so far give a prefix of the list more keys give |
| WooCommercePro.WithVariesBy | includes/modules/woocommerce/class-woocommerce-pro.php:362-386 | no contract of its own; `GroupEntityVariesBy` states its effect on the group, and `AddVariesBy` returns it |
| WooCommercePro.VariesByFacts | includes/modules/woocommerce/class-woocommerce-pro.php:362-386 | `variesBy` is duplicate-free, holds only whitelist properties, holds a property iff an accumulated key names it, and is empty iff no accumulated key is accepted |
| WooCommercePro.VariesByFromVariantAttributes | includes/modules/woocommerce/class-woocommerce-pro.php:367-374 | keys collected from attributes never yield `suggestedAge` or `suggestedGender`, and `weight` alone yields no `variesBy` |
| WooCommercePro.HasWooCommerceSchema | includes/modules/woocommerce/class-woocommerce-pro.php:264-271 | no contract of its own (some stored schema has `@type` `WooCommerceProduct`); `AddVariationsData` states its effect through `Eligible` |
| WooCommercePro.Eligible | includes/modules/woocommerce/class-woocommerce-pro.php:260-278 | no contract of its own; `AddVariationsData` states that the entity is unchanged unless it holds |
| WooCommercePro.GroupIdentity | includes/modules/woocommerce/class-woocommerce-pro.php:280-282 | no contract of its own; `GroupEntityShape` states the identity fields |
| WooCommercePro.WithOfferGtin | includes/modules/woocommerce/class-woocommerce-pro.php:284 | no contract of its own; `WithOfferGtinOnlyOffers` and `ProductGtinUnobservable` state its reach |
| WooCommercePro.GroupEntity | includes/modules/woocommerce/class-woocommerce-pro.php:280-294 | no contract of its own; the `GroupEntity...` lemmas below state the group |
| WooCommercePro.GroupEntityShape | includes/modules/woocommerce/class-woocommerce-pro.php:280-294 | the group is a `ProductGroup` at the permalink, identified by the non-empty SKU or else the product id, and has no `offers` |
| WooCommercePro.GroupEntityVariants | includes/modules/woocommerce/class-woocommerce-pro.php:286-292 | `hasVariant` holds one variant entity per variation, in order |
| WooCommercePro.GroupEntityVariesBy | includes/modules/woocommerce/class-woocommerce-pro.php:291 | `variesBy` is present iff the entity had one or some accumulated key is accepted, and then it is the accepted list; it is never set to an empty list |
| WooCommercePro.GroupEntityFromIdentity | includes/modules/woocommerce/class-woocommerce-pro.php:280-294 | every field the group does not set itself is that of the identity step |
| WooCommercePro.GroupEntityKeepsOtherFields | includes/modules/woocommerce/class-woocommerce-pro.php:280-294 | fields the group does not set pass through from the input entity |
| WooCommercePro.WithOfferGtinOnlyOffers | includes/modules/woocommerce/class-woocommerce-pro.php:284 | writing the product GTIN touches only `offers` |
| WooCommercePro.ProductGtinUnobservable | includes/modules/woocommerce/class-woocommerce-pro.php:284-294 | the group does not depend on the product GTIN written at line 284 |
| WooCommercePro.FreshVariesBy | includes/modules/woocommerce/class-woocommerce-pro.php:286-291 | on a fresh instance `variesBy` holds a property iff some variation copies an attribute naming it |
| WooCommercePro.VariesByCarriesOver | includes/modules/woocommerce/class-woocommerce-pro.php:32 | keys collected for an earlier product still reach a later product's `variesBy` |
| WooCommercePro.WooCommerce.constructor | includes/modules/woocommerce/class-woocommerce-pro.php:32 | a new instance starts with no collected keys |
| WooCommercePro.WooCommerce.AddVariableAttributes | includes/modules/woocommerce/class-woocommerce-pro.php:438-456 | copies the truthy whitelisted attributes onto the variant and appends exactly their keys to `variesBy`, in order |
| WooCommercePro.WooCommerce.GetVariantData | includes/modules/woocommerce/class-woocommerce-pro.php:321-337 | returns the variant entity of the variation and appends its copied keys to `variesBy` |
| WooCommercePro.WooCommerce.AddVariesBy | includes/modules/woocommerce/class-woocommerce-pro.php:362-386 | sets `variesBy` to the accepted properties when some collected key is accepted, and otherwise leaves the entity alone; on an instance whose collected keys are all variant attribute keys, `suggestedAge` and `suggestedGender` never appear |
| WooCommercePro.WooCommerce.BuildVariants | includes/modules/woocommerce/class-woocommerce-pro.php:286-289 | builds one variant per variation in order, appending every variation's copied keys |
| WooCommercePro.WooCommerce.AddVariationsData | includes/modules/woocommerce/class-woocommerce-pro.php:257-297 | returns the entity unchanged for a non-variable product, a product without a WooCommerce schema, or one without variations; otherwise returns the group |
| NewsSitemapHelper.TermOption | includes/modules/news-sitemap/class-news-sitemap-helper.php:48-51 | no contract of its own (the `value` and `name` record of one term); `TermOptions` and `SanitizeOptions` state its uses |
| NewsSitemapHelper.TermOptions | includes/modules/news-sitemap/class-news-sitemap-helper.php:46-54 | one `{value, name}` record per term, in order |
| NewsSitemapHelper.QueryArgs | includes/modules/news-sitemap/class-news-sitemap-helper.php:28-39 | the query has `number = 10` and no `include` without a selection; with one, `include` is the selection and there is no `number` |
| NewsSitemapHelper.TermQueryArgs | includes/modules/news-sitemap/class-news-sitemap-helper.php:28-39 | the step-by-step construction yields those arguments |
| NewsSitemapHelper.GetTaxonomyTerms | includes/modules/news-sitemap/class-news-sitemap-helper.php:27-55 | the result has one record per term the query returns, in order, and is empty when the query returns nothing |
| NewsSitemapHelper.FilterTerms | includes/modules/news-sitemap/class-news-sitemap-helper.php:67-73 | the filter fails iff some term value is an object, and it never lengthens the list |
| NewsSitemapHelper.EscapeExcludeTermsValue | includes/modules/news-sitemap/class-news-sitemap-helper.php:65-77 | an unset `value[0]` yields `[]`; otherwise the result fails iff the list does not decode or some term value is an object |
| NewsSitemapHelper.HasFirst | includes/modules/news-sitemap/class-news-sitemap-helper.php:67 | no contract of its own (`isset($value[0])`); `EscapeExcludeTermsValue` states the `[]` case |
| NewsSitemapHelper.TermValue | includes/modules/news-sitemap/class-news-sitemap-helper.php:70 | no contract of its own (a missing `value` reads as null); `FilterTerms` states when a value cannot be cast |
| NewsSitemapHelper.Keeps | includes/modules/news-sitemap/class-news-sitemap-helper.php:69-71 | no contract of its own (strict `in_array` of the cast value); `FilterTermsMembers` and `FilterTermsCount` state what it keeps |
| NewsSitemapHelper.FilterTermsSubsequence | includes/modules/news-sitemap/class-news-sitemap-helper.php:67-74 | the kept terms are a subsequence of the term list |
| NewsSitemapHelper.FilterTermsMembers | includes/modules/news-sitemap/class-news-sitemap-helper.php:67-72 | a term is kept iff its stringified value is among the stored values |
| NewsSitemapHelper.FilterTermsCount | includes/modules/news-sitemap/class-news-sitemap-helper.php:67-72 | a kept term occurs as many times as in the term list, any other term not at all |
| NewsSitemapHelper.EscapeKeepsStoredIds | includes/modules/news-sitemap/class-news-sitemap-helper.php:65-77 | with a first stored value and no object-valued term, the result keeps exactly the terms whose stringified value is stored, each as often as in the term list, as a subsequence of it |
| NewsSitemapHelper.NonStringSelectionMatchesNothing | includes/modules/news-sitemap/class-news-sitemap-helper.php:70 | the comparison is strict, so stored values that are not strings keep no term |
| NewsSitemapHelper.RecordValue | includes/modules/news-sitemap/class-news-sitemap-helper.php:93 | no contract of its own (a missing `value` reads as null); `SanitizeExcludeTermsValue` maps it over the records |
| NewsSitemapHelper.SanitizeExcludeTermsValue | includes/modules/news-sitemap/class-news-sitemap-helper.php:86-97 | an empty input yields `[]`; otherwise the `value` of each decoded record, with length and order kept |
| NewsSitemapHelper.SanitizeOptions | includes/modules/news-sitemap/class-news-sitemap-helper.php:86-97 | submitting the records the term query builds stores their ids in order |
| NewsSitemap.IsPostIndexable | includes/modules/news-sitemap/class-news-sitemap.php:83-90 | a post is not indexable iff its robots meta is exactly `noindex` |
| NewsSitemap.NewsRobots | includes/modules/news-sitemap/class-news-sitemap.php:55-74 | the `Googlebot-News` noindex tag is printed iff the page is singular, the filter is truthy and the post is not indexable |
| NewsSitemap.HasExcludedTerm | includes/modules/news-sitemap/class-news-sitemap.php:191-197 | no contract of its own (some configured taxonomy has a stored term on the post); `FirstMatchFound` and `ChangeDefaultSchemaType` state it |
| NewsSitemap.NoExclusions | includes/modules/news-sitemap/class-news-sitemap.php:187 | no contract of its own (`empty($exclude_terms[0])`); `ChangeDefaultSchemaType` states that it makes a news post a `NewsArticle` |
| NewsSitemap.FirstMatch | includes/modules/news-sitemap/class-news-sitemap.php:191-197 | the first configured taxonomy whose terms the post has; none before it matches |
| NewsSitemap.FirstMatchFound | includes/modules/news-sitemap/class-news-sitemap.php:191-197 | a first match exists iff some taxonomy matches |
| NewsSitemap.ChangeDefaultSchemaType | includes/modules/news-sitemap/class-news-sitemap.php:180-200 | non-news posts keep their type; news posts become `NewsArticle` unless they have an excluded term, and the scan stops after the first match |
| NewsSitemap.YearString | includes/modules/news-sitemap/class-news-sitemap.php:219 | the year has at least four characters; `YearStringReadsBack` states that it reads back |
| NewsSitemap.YearStringReadsBack | includes/modules/news-sitemap/class-news-sitemap.php:219 | the copyright year reads back as the modification year |
| NewsSitemap.AddCopyrightsData | includes/modules/news-sitemap/class-news-sitemap.php:208-225 | without a post or on a non-news post the entity is unchanged; otherwise `copyrightYear` is set, `copyrightHolder` becomes the publisher iff that is non-empty, and nothing else changes |
| NewsSitemap.PublicationName | includes/modules/news-sitemap/class-news-sitemap.php:244-245 | the configured name when it is truthy, else the blog name; empty iff both are |

## Left out

- Hook registration in the constructors and in `init`. Each filter is a
  plain function or method, called with the values the hook would pass.
- Operations outside this model:
  - `add_variation_script`, `add_gtin_meta` and `add_gtin_to_variation_param`.
    They print or pass front-end script and HTML.
  - `og_retailer_id`, which writes an OpenGraph tag.
  - `get_formatted_value`, which escapes HTML.
  - `additional_schema_properties`, which depends on host link functions.
  - `add_provider`, which registers the sitemap provider with the host.
  - `xml_urlset`, which returns a fixed `<urlset>` opening tag.
  - `stylesheet_url`, which builds the stylesheet tag from the host router's URL.
  - `sitemap_xsl`, which loads a template file.
  - `sitemap_url`, which builds the `<url>` entry through the sitemap renderer.
- The rest of `get_news_publication` builds XML around the name and
  language; only the name fallback is modelled.
- Key order of PHP arrays inside an entity is not modelled: an entity is a
  map. Lists that the code iterates in order are sequences.
- Values are supplied already resolved; lookup failures are not modelled:
  - `wc_get_product` and `get_post` are assumed to succeed;
  - the sale-end timestamp arrives as a resolved `Date`;
  - WooCommerce getters, image URLs and the displayed price are values.
- `get_terms` returning a `WP_Error` is not modelled: the query is a
  function to a list of `id => name` pairs.
- Floating-point values and JSON encoding are not modelled:
  - `wp_json_encode` at line 74 of the helper is dropped;
  - the escape filter returns the list it would encode.
- Stored values in unexpected shapes are not modelled:
  - the stored selection is a list;
  - the exclude-terms setting is a list of taxonomy and terms pairs;
  - the news post types are a list of strings.

  Scalars cast by `(array)` are not modelled.
- `NewsSitemapHelper.SanitizeExcludeTermsValue`: `decode` yields either a
  list of records or `None`, for text that does not decode, where
  `array_map` throws. Text that decodes to a JSON object, which `array_map`
  would map key by key, keeping its keys, is not modelled. Neither are
  decoded list elements that are not records.
- `WooCommercePro.WithOfferGtin`: a missing, null or `false` `offers` becomes
  an array holding the GTIN, and an associative `offers` gets the key. A
  list-valued `offers` is left as it is, though PHP would add the key to it.
  `true`, integers and strings are also left as they are, though PHP would
  throw on them. Whatever this step writes to
  `offers` never reaches the output (`ProductGtinUnobservable`).
- `NewsSitemap.YearString`: years before year 0 are not modelled (`nat`). The
  copyright year is supplied as a number, not through `get_the_modified_date`
  failing.
- `NewsSitemap.ChangeDefaultSchemaType`: `checked` is a ghost count of the
  `has_term` calls. It exists only to state where the loop stops.
