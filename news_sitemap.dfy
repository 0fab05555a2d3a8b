/**
 * The schema and robots decisions of the news sitemap (class News_Sitemap in
 * includes/modules/news-sitemap/class-news-sitemap.php): the `noindex` tag
 * for Google News, the promotion of news posts to `NewsArticle`, the
 * copyright fields of a news article and the publication name.
 *
 * Post meta, settings, `has_term` and the filter values are inputs.
 */
module NewsSitemap {
  import opened PhpValues

  const NewsArticle: string := "NewsArticle"

  /** The robots value a post stores to keep out of Google News. */
  const NoIndex: string := "noindex"

  /** The tag `robots` prints, with its newline. */
  const NoIndexTag: string := "<meta name=\"Googlebot-News\" content=\"noindex\" />\n"

  /**
   * `is_post_indexable`, on the post's `rank_math_news_sitemap_robots` meta:
   * a post is kept out only when the meta is exactly `noindex`.
   */
  function IsPostIndexable(robotsMeta: Value): (r: bool)
    ensures !r <==> robotsMeta == Str(NoIndex)
  {
    if !Empty(robotsMeta) && robotsMeta == Str(NoIndex) then false else true
  }

  /**
   * The decision of `robots`: the tag it prints on a singular page, given
   * the value of the `sitemap/news/noindex` filter and the post's robots
   * meta, or nothing.
   */
  function NewsRobots(isSingular: bool, noindexFilter: Value, robotsMeta: Value): (r: Option<string>)
    ensures r.Some? <==> isSingular && !Empty(noindexFilter) && robotsMeta == Str(NoIndex)
    ensures r.Some? ==> r.value == NoIndexTag
  {
    if !isSingular then None
    else if Empty(noindexFilter) || IsPostIndexable(robotsMeta) then None
    else Some(NoIndexTag)
  }

  // ---------------------------------------------------------------------
  // The default schema type

  /**
   * Some configured taxonomy has one of its excluded terms on the post;
   * `hasTerm(terms, taxonomy)` is `has_term` for the current post.
   */
  predicate HasExcludedTerm(excluded: seq<(string, Value)>, hasTerm: (Value, string) -> bool) {
    exists i :: 0 <= i < |excluded| && hasTerm(excluded[i].1, excluded[i].0)
  }

  /** The index of the first taxonomy with a match, or `|excluded|` when none matches. */
  function FirstMatch(excluded: seq<(string, Value)>, hasTerm: (Value, string) -> bool): (k: nat)
    ensures k <= |excluded|
    ensures forall j :: 0 <= j < k ==> !hasTerm(excluded[j].1, excluded[j].0)
    ensures k < |excluded| ==> hasTerm(excluded[k].1, excluded[k].0)
    decreases |excluded|
  {
    if |excluded| == 0 then 0
    else if hasTerm(excluded[0].1, excluded[0].0) then 0
    else 1 + FirstMatch(excluded[1..], hasTerm)
  }

  /** There is a first match exactly when some taxonomy matches. */
  lemma {:induction false} FirstMatchFound(excluded: seq<(string, Value)>, hasTerm: (Value, string) -> bool)
    ensures FirstMatch(excluded, hasTerm) < |excluded| <==> HasExcludedTerm(excluded, hasTerm)
    decreases |excluded|
  {
    if |excluded| > 0 && !hasTerm(excluded[0].1, excluded[0].0) {
      var rest := excluded[1..];
      FirstMatchFound(rest, hasTerm);
      if HasExcludedTerm(excluded, hasTerm) {
        var i :| 0 <= i < |excluded| && hasTerm(excluded[i].1, excluded[i].0);
        assert rest[i - 1] == excluded[i];
      }
      if HasExcludedTerm(rest, hasTerm) {
        var i :| 0 <= i < |rest| && hasTerm(rest[i].1, rest[i].0);
        assert excluded[i + 1] == rest[i];
      }
    }
  }

  /** No configured exclusions: the setting has no first entry, or that entry is empty. */
  predicate NoExclusions(excludeTerms: seq<seq<(string, Value)>>) {
    |excludeTerms| == 0 || excludeTerms[0] == []
  }

  /**
   * `change_default_schema_type`. A post of a news post type becomes a
   * `NewsArticle` unless it has one of the terms excluded in the first
   * entry of its post type's exclude setting; other posts keep their type.
   * `excludeTerms` is that setting cast to a list, each entry a list of
   * taxonomy and terms pairs in their stored order. `checked` counts the
   * `has_term` calls: the scan stops at the first match.
   */
  method ChangeDefaultSchemaType(schema: string, postType: string, newsPostTypes: seq<string>,
                                 excludeTerms: seq<seq<(string, Value)>>, hasTerm: (Value, string) -> bool)
    returns (r: string, ghost checked: nat)
    ensures postType !in newsPostTypes ==> r == schema
    ensures postType in newsPostTypes && NoExclusions(excludeTerms) ==> r == NewsArticle
    ensures postType in newsPostTypes && !NoExclusions(excludeTerms) ==>
      r == (if HasExcludedTerm(excludeTerms[0], hasTerm) then schema else NewsArticle)
    ensures postType !in newsPostTypes || NoExclusions(excludeTerms) ==> checked == 0
    ensures postType in newsPostTypes && !NoExclusions(excludeTerms) ==>
      checked == (if HasExcludedTerm(excludeTerms[0], hasTerm) then FirstMatch(excludeTerms[0], hasTerm) + 1 else |excludeTerms[0]|)
  {
    checked := 0;
    if postType !in newsPostTypes {
      return schema, checked;
    }
    if NoExclusions(excludeTerms) {
      return NewsArticle, checked;
    }
    var excluded := excludeTerms[0];
    FirstMatchFound(excluded, hasTerm);
    var hasExcludedTerm := false;
    var i := 0;
    while i < |excluded|
      invariant 0 <= i <= FirstMatch(excluded, hasTerm)
      invariant checked == i
      invariant !hasExcludedTerm
    {
      var (taxonomy, terms) := excluded[i];
      checked := checked + 1;
      if hasTerm(terms, taxonomy) {
        hasExcludedTerm := true;
        break;
      }
      i := i + 1;
    }
    r := if hasExcludedTerm then schema else NewsArticle;
  }

  // ---------------------------------------------------------------------
  // Copyright of a news article

  /** The global post, as far as this filter reads it. */
  datatype Post = Post(postType: string, modifiedYear: nat)

  /** `get_the_modified_date('Y')`: the year of the last modification, with at least four digits. */
  function YearString(year: nat): (s: string)
    ensures |s| >= 4
  {
    PadLeft(NatToString(year), 4)
  }

  /** The year written into the entity reads back as the modification year. */
  lemma YearStringReadsBack(year: nat)
    ensures DigitsToNat(YearString(year)) == year
  {
    PaddedValue(year, 4);
  }

  /**
   * `add_copyrights_data`: on a news post the article carries the year of
   * its last modification and, when it has a publisher, that publisher as
   * copyright holder; otherwise the entity is returned as it is.
   */
  method AddCopyrightsData(entity: Entity, post: Option<Post>, newsPostTypes: seq<string>) returns (r: Entity)
    ensures post.None? || post.value.postType !in newsPostTypes ==> r == entity
    ensures post.Some? && post.value.postType in newsPostTypes ==>
      && "copyrightYear" in r && r["copyrightYear"] == Str(YearString(post.value.modifiedYear))
      && (!EmptyAt(entity, "publisher") ==> "copyrightHolder" in r && r["copyrightHolder"] == entity["publisher"])
      && (EmptyAt(entity, "publisher") ==> ("copyrightHolder" in r <==> "copyrightHolder" in entity))
      && (forall k :: k in entity && k != "copyrightYear" && k != "copyrightHolder" ==> k in r && r[k] == entity[k])
      && (EmptyAt(entity, "publisher") && "copyrightHolder" in entity ==> r["copyrightHolder"] == entity["copyrightHolder"])
      && r.Keys == entity.Keys + {"copyrightYear"} + (if EmptyAt(entity, "publisher") then {} else {"copyrightHolder"})
  {
    if post.None? {
      return entity;
    }
    if post.value.postType !in newsPostTypes {
      return entity;
    }
    r := entity;
    r := r["copyrightYear" := Str(YearString(post.value.modifiedYear))];
    if !EmptyAt(r, "publisher") {
      r := r["copyrightHolder" := r["publisher"]];
    }
  }

  // ---------------------------------------------------------------------
  // The publication name

  /** The name `get_news_publication` prints: the configured name when it is truthy, else the blog name. */
  function PublicationName(setting: Value, blogName: string): (name: Value)
    ensures !Empty(setting) ==> name == setting
    ensures Empty(setting) ==> name == Str(blogName)
    ensures Empty(name) <==> Empty(setting) && Falsy(blogName)
  {
    if !Empty(setting) then setting else Str(blogName)
  }
}
