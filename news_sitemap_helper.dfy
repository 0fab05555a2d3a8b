/**
 * The term helpers of the news sitemap settings (class News_Sitemap_Helper in
 * includes/modules/news-sitemap/class-news-sitemap-helper.php): the term
 * query behind the "exclude terms" picker, and the two filters that turn the
 * stored selection into the picker's value and back.
 *
 * `get_terms`, `json_decode` and `wp_json_encode` belong to the host; the
 * term query and the decoder are parameters, and the encoder is left out
 * (the escape filter returns the list it would encode).
 */
module NewsSitemapHelper {
  import opened PhpValues

  /** The page size of an unselected term search. */
  const SearchLimit: int := 10

  /** A picker option: `['value' => $id, 'name' => $name]`. */
  function TermOption(id: int, name: string): Entity {
    map["value" := Int(id), "name" := Str(name)]
  }

  /** The options built from an `id => name` term result, one per term, in order. */
  function TermOptions(terms: seq<(int, string)>): (data: seq<Entity>)
    ensures |data| == |terms|
    ensures forall i :: 0 <= i < |terms| ==> data[i] == TermOption(terms[i].0, terms[i].1)
  {
    seq(|terms|, i requires 0 <= i < |terms| => TermOption(terms[i].0, terms[i].1))
  }

  /**
   * The arguments of the term query. A search returns at most ten terms and
   * leaves out the selected ones; once there is a selection, the query asks
   * for exactly the selected terms and has no limit.
   */
  function QueryArgs(taxonomy: string, selected: seq<Value>, search: string): (args: map<string, Value>)
    ensures "taxonomy" in args && args["taxonomy"] == Str(taxonomy)
    ensures "search" in args && args["search"] == Str(search)
    ensures "fields" in args && args["fields"] == Str("id=>name")
    ensures "exclude" in args && args["exclude"] == List(selected)
    ensures selected == [] ==> "number" in args && args["number"] == Int(SearchLimit) && "include" !in args
    ensures selected != [] ==> "number" !in args && "include" in args && args["include"] == List(selected)
    ensures args.Keys <= {"taxonomy", "search", "fields", "number", "exclude", "include"}
  {
    var common := map["taxonomy" := Str(taxonomy), "search" := Str(search), "fields" := Str("id=>name"), "exclude" := List(selected)];
    if selected == [] then common["number" := Int(SearchLimit)] else common["include" := List(selected)]
  }

  /** Builds the query arguments: the search defaults, then the selection replacing the limit. */
  method TermQueryArgs(taxonomy: string, selected: seq<Value>, search: string) returns (args: map<string, Value>)
    ensures args == QueryArgs(taxonomy, selected, search)
  {
    args := map[
      "taxonomy" := Str(taxonomy),
      "search" := Str(search),
      "fields" := Str("id=>name"),
      "number" := Int(SearchLimit),
      "exclude" := List(selected)
    ];
    if !Empty(List(selected)) {
      args := args["include" := List(selected)];
      args := args - {"number"};
    }
  }

  /**
   * `get_taxonomy_terms`: the options for the terms the query returns, one
   * record per term, in the order the query returns them.
   */
  method GetTaxonomyTerms(taxonomy: string, selected: seq<Value>, search: string,
                          getTerms: map<string, Value> -> seq<(int, string)>)
    returns (data: seq<Entity>)
    ensures data == TermOptions(getTerms(QueryArgs(taxonomy, selected, search)))
  {
    var args := TermQueryArgs(taxonomy, selected, search);
    var terms := getTerms(args);
    if |terms| == 0 {
      return [];
    }
    data := [];
    for i := 0 to |terms|
      invariant data == TermOptions(terms[..i])
    {
      var (id, name) := terms[i];
      data := data + [TermOption(id, name)];
    }
    assert terms[..|terms|] == terms;
  }

  // ---------------------------------------------------------------------
  // Escaping the stored selection for the picker

  /** `$term->value` on a decoded term: a missing property reads as null. */
  function TermValue(term: Entity): Value {
    if "value" in term then term["value"] else Null
  }

  /** `isset($value[0])` on the stored list. */
  predicate HasFirst(stored: seq<Value>) {
    |stored| > 0 && stored[0] != Null
  }

  /** The callback of `array_filter`: the term's value, as a string, is stored (strict comparison). */
  predicate Keeps(term: Entity, stored: seq<Value>)
    requires !TermValue(term).Obj?
  {
    Str(CastToString(TermValue(term)).value) in stored
  }

  /** Some term has an object as its value, which has no string form. */
  predicate SomeObjectValue(terms: seq<Entity>) {
    exists i :: 0 <= i < |terms| && TermValue(terms[i]).Obj?
  }

  /** `array_values(array_filter(...))`: the kept terms, in order; `None` where the cast throws. */
  function FilterTerms(terms: seq<Entity>, stored: seq<Value>): (r: Option<seq<Entity>>)
    ensures r.None? <==> SomeObjectValue(terms)
    ensures r.Some? ==> |r.value| <= |terms|
    decreases |terms|
  {
    if |terms| == 0 then Some([])
    else
      var init, last := terms[..|terms| - 1], terms[|terms| - 1];
      var rest := FilterTerms(init, stored);
      assert SomeObjectValue(terms) <==> SomeObjectValue(init) || TermValue(last).Obj? by {
        if SomeObjectValue(terms) && !TermValue(last).Obj? {
          var i :| 0 <= i < |terms| && TermValue(terms[i]).Obj?;
          assert init[i] == terms[i];
        }
        if SomeObjectValue(init) {
          var i :| 0 <= i < |init| && TermValue(init[i]).Obj?;
          assert terms[i] == init[i];
        }
      }
      if rest.None? || TermValue(last).Obj? then None
      else if Keeps(last, stored) then Some(rest.value + [last])
      else rest
  }

  /**
   * `escape_exclude_terms_value`: nothing when the stored list has no first
   * element, otherwise the terms of the picker's list whose value is stored.
   * `None` stands for a term list that does not decode or a term value that
   * cannot be cast to a string, where PHP throws.
   */
  function EscapeExcludeTermsValue(stored: seq<Value>, termsList: Option<seq<Entity>>): (r: Option<seq<Entity>>)
    ensures !HasFirst(stored) ==> r == Some([])
    ensures HasFirst(stored) && termsList.Some? ==> (r.None? <==> SomeObjectValue(termsList.value))
    ensures HasFirst(stored) && termsList.None? ==> r.None?
  {
    if !HasFirst(stored) then Some([])
    else if termsList.None? then None
    else FilterTerms(termsList.value, stored)
  }

  /** `sub` is `s` with some elements left out, the rest in order. */
  predicate IsSubsequence<T(==)>(sub: seq<T>, s: seq<T>)
    decreases |s|
  {
    if |sub| == 0 then true
    else if |s| == 0 then false
    else if sub[|sub| - 1] == s[|s| - 1] then IsSubsequence(sub[..|sub| - 1], s[..|s| - 1])
    else IsSubsequence(sub, s[..|s| - 1])
  }

  lemma {:induction false} FilterTermsSubsequence(terms: seq<Entity>, stored: seq<Value>)
    requires FilterTerms(terms, stored).Some?
    ensures IsSubsequence(FilterTerms(terms, stored).value, terms)
    decreases |terms|
  {
    if |terms| > 0 {
      var init, last := terms[..|terms| - 1], terms[|terms| - 1];
      FilterTermsSubsequence(init, stored);
      var rest := FilterTerms(init, stored).value;
      if Keeps(last, stored) {
        assert (rest + [last])[..|rest|] == rest;
      } else {
        SubsequenceOfPrefix(rest, init, last);
      }
    }
  }

  lemma {:induction false} SubsequenceOfPrefix<T>(sub: seq<T>, s: seq<T>, x: T)
    requires IsSubsequence(sub, s)
    ensures IsSubsequence(sub, s + [x])
    decreases |s|, 1
  {
    if |sub| > 0 {
      var t := s + [x];
      assert t[..|t| - 1] == s;
      if sub[|sub| - 1] == x {
        SubsequenceDropLast(sub, s);
      }
    }
  }

  lemma {:induction false} SubsequenceDropLast<T>(sub: seq<T>, s: seq<T>)
    requires |sub| > 0 && IsSubsequence(sub, s)
    ensures IsSubsequence(sub[..|sub| - 1], s)
    decreases |s|, 0
  {
    var init := sub[..|sub| - 1];
    if sub[|sub| - 1] == s[|s| - 1] {
      SubsequenceOfPrefix(init, s[..|s| - 1], s[|s| - 1]);
      assert s[..|s| - 1] + [s[|s| - 1]] == s;
    } else {
      SubsequenceDropLast(sub, s[..|s| - 1]);
      SubsequenceOfPrefix(init, s[..|s| - 1], s[|s| - 1]);
      assert s[..|s| - 1] + [s[|s| - 1]] == s;
    }
  }

  /** A term is in the escaped list exactly when it is in the picker's list and its value is stored. */
  lemma {:induction false} FilterTermsMembers(terms: seq<Entity>, stored: seq<Value>, t: Entity)
    requires FilterTerms(terms, stored).Some?
    ensures t in FilterTerms(terms, stored).value <==> t in terms && Keeps(t, stored)
    decreases |terms|
  {
    if |terms| > 0 {
      var init, last := terms[..|terms| - 1], terms[|terms| - 1];
      FilterTermsMembers(init, stored, t);
      assert terms == init + [last];
      if t in terms && t != last {
        assert t in init;
      }
      if t in init {
        var i :| 0 <= i < |init| && init[i] == t;
        assert terms[i] == t;
      }
    }
  }

  /** A kept term appears as often as in the picker's list; any other term not at all. */
  lemma {:induction false} FilterTermsCount(terms: seq<Entity>, stored: seq<Value>, t: Entity)
    requires FilterTerms(terms, stored).Some?
    ensures multiset(FilterTerms(terms, stored).value)[t] == (if !TermValue(t).Obj? && Keeps(t, stored) then multiset(terms)[t] else 0)
    decreases |terms|
  {
    if |terms| > 0 {
      var init, last := terms[..|terms| - 1], terms[|terms| - 1];
      FilterTermsCount(init, stored, t);
      assert terms == init + [last];
      assert multiset(terms) == multiset(init) + multiset{last};
      var rest := FilterTerms(init, stored).value;
      if Keeps(last, stored) {
        assert multiset(rest + [last]) == multiset(rest) + multiset{last};
      }
    }
  }

  /** The picker getting the options of a query with string ids keeps exactly the stored ones. */
  lemma EscapeKeepsStoredIds(stored: seq<Value>, terms: seq<Entity>, t: Entity)
    requires HasFirst(stored) && !SomeObjectValue(terms)
    ensures var r := EscapeExcludeTermsValue(stored, Some(terms));
      r.Some? && IsSubsequence(r.value, terms) &&
      (t in r.value <==> t in terms && Keeps(t, stored)) &&
      multiset(r.value)[t] == (if !TermValue(t).Obj? && Keeps(t, stored) then multiset(terms)[t] else 0)
  {
    FilterTermsSubsequence(terms, stored);
    FilterTermsMembers(terms, stored, t);
    FilterTermsCount(terms, stored, t);
  }

  /** Stored values that are not strings match no term, since the comparison is strict. */
  lemma {:induction false} NonStringSelectionMatchesNothing(terms: seq<Entity>, stored: seq<Value>)
    requires forall i :: 0 <= i < |stored| ==> !stored[i].Str?
    requires !SomeObjectValue(terms)
    ensures FilterTerms(terms, stored) == Some([])
    decreases |terms|
  {
    if |terms| > 0 {
      var init := terms[..|terms| - 1];
      assert !SomeObjectValue(init) by {
        forall i | 0 <= i < |init| ensures !TermValue(init[i]).Obj? {
          assert init[i] == terms[i];
        }
      }
      NonStringSelectionMatchesNothing(init, stored);
    }
  }

  // ---------------------------------------------------------------------
  // Sanitizing the picker's value for storage

  /** `$term['value']` on a decoded record: a missing key reads as null. */
  function RecordValue(record: Entity): Value {
    if "value" in record then record["value"] else Null
  }

  /**
   * `sanitize_exclude_terms_value`: nothing for an empty form value,
   * otherwise the `value` of each record the slash-stripped JSON decodes
   * to, in order. `decode` is `json_decode(..., true)` on text that is
   * JSON for a list of records; `None` stands for text that does not
   * decode (null), where `array_map` throws. Text that decodes to a JSON
   * object, which `array_map` would map key by key, is not modelled.
   */
  function SanitizeExcludeTermsValue(raw: string, decode: string -> Option<seq<Entity>>): (r: Option<seq<Value>>)
    ensures Falsy(raw) ==> r == Some([])
    ensures !Falsy(raw) ==> (r.None? <==> decode(StripSlashes(raw)).None?)
    ensures !Falsy(raw) && r.Some? ==>
      var records := decode(StripSlashes(raw)).value;
      |r.value| == |records| && forall i :: 0 <= i < |records| ==> r.value[i] == RecordValue(records[i])
  {
    if Falsy(raw) then Some([])
    else
      var decoded := decode(StripSlashes(raw));
      if decoded.None? then None else Some(MapSeq(RecordValue, decoded.value))
  }

  /** The ids of a term result. */
  function TermIds(terms: seq<(int, string)>): (ids: seq<Value>)
    ensures |ids| == |terms|
  {
    seq(|terms|, i requires 0 <= i < |terms| => Int(terms[i].0))
  }

  /**
   * Submitting a list of options, as `get_taxonomy_terms` builds them, stores
   * their ids in order.
   */
  lemma SanitizeOptions(raw: string, decode: string -> Option<seq<Entity>>, terms: seq<(int, string)>)
    requires !Falsy(raw) && decode(StripSlashes(raw)) == Some(TermOptions(terms))
    ensures SanitizeExcludeTermsValue(raw, decode) == Some(TermIds(terms))
  {
    var r := SanitizeExcludeTermsValue(raw, decode).value;
    forall i | 0 <= i < |terms| ensures r[i] == Int(terms[i].0) {
      assert RecordValue(TermOption(terms[i].0, terms[i].1)) == Int(terms[i].0);
    }
    assert r == TermIds(terms);
  }
}
