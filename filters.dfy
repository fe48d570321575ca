/** The query-string filters of api/filters.py: RecipeFilter over the recipe
    list and IngredientFilter's name search. */
module Filters {
  import opened Common
  import opened Seqs
  import opened Models
  import opened RecipeViews

  // ----- RecipeFilter: how the FilterSet is put together -----

  /** The names a Recipe lookup may start from: its fields and its reverse
      relations (recipe_ingredient, favorites, shopping_cart). */
  const RecipeFieldNames := {"id", "author", "ingredients", "name", "text", "cooking_time", "tags",
                             "pub_date", "image", "recipe_ingredient", "favorites", "shopping_cart"}

  /** The filters RecipeFilter declares. */
  const DeclaredFilters := {"tags", "is_favorited", "author", "is_in_shopping_cart"}

  /** Meta.fields as written, and as the declared filters evidently mean it. */
  const MetaFieldsAsWritten := ["author", "is_favorited", "is_in_shopping_list", "tags"]
  const MetaFields := ["author", "is_favorited", "is_in_shopping_cart", "tags"]

  /** The names of Meta.fields that are neither a model field nor a declared
      filter; creating the FilterSet class raises TypeError when there is one. */
  function UndefinedMetaFields(fields: seq<string>): seq<string> {
    Filter(fields, (f: string) => f !in RecipeFieldNames && f !in DeclaredFilters)
  }

  /** As written, "is_in_shopping_list" is undefined, so RecipeFilter cannot
      even be created. */
  lemma MetaFieldsAsWrittenRejected()
    ensures UndefinedMetaFields(MetaFieldsAsWritten) == ["is_in_shopping_list"]
  {
    var keep := (f: string) => f !in RecipeFieldNames && f !in DeclaredFilters;
    assert MetaFieldsAsWritten[1..] == ["is_favorited", "is_in_shopping_list", "tags"];
    assert MetaFieldsAsWritten[1..][1..] == ["is_in_shopping_list", "tags"];
    assert MetaFieldsAsWritten[1..][1..][1..] == ["tags"];
    assert "is_in_shopping_list" !in RecipeFieldNames && "is_in_shopping_list" !in DeclaredFilters;
    assert Filter(["tags"], keep) == [];
  }

  /** The corrected Meta.fields has no undefined name and lists exactly the
      declared filters. */
  lemma MetaFieldsAccepted()
    ensures UndefinedMetaFields(MetaFields) == []
    ensures Elems(MetaFields) == DeclaredFilters
  {
    var keep := (f: string) => f !in RecipeFieldNames && f !in DeclaredFilters;
    FilterNone(MetaFields, keep);
    assert MetaFields[0] == "author" && MetaFields[1] == "is_favorited";
    assert MetaFields[2] == "is_in_shopping_cart" && MetaFields[3] == "tags";
  }

  /** The methods RecipeFilter defines for its filters to call. */
  const RecipeFilterMethods := {"filter_boolean_field"}

  /** The method each boolean filter names in `method=`, as written. */
  function BoundMethodAsWritten(filterName: string): string {
    if filterName == "is_favorited" then "filter_is_favorited" else "filter_is_in_shopping_list"
  }

  /** The method both boolean filters evidently mean to call. */
  const BooleanFilterMethod := "filter_boolean_field"

  /** FILTER_MAP as written. */
  function FilterMapAsWritten(name: string): Option<string> {
    if name == "is_favorited" then Some("favorite__user")
    else if name == "is_in_shopping_cart" then Some("shopping_cart__user")
    else None
  }

  /** FILTER_MAP with the favourites relation under its related name. */
  function FilterMap(name: string): Option<string> {
    if name == "is_favorited" then Some("favorites__user")
    else if name == "is_in_shopping_cart" then Some("shopping_cart__user")
    else None
  }

  /** The relation a `<relation>__user` lookup reaches; Django raises
      FieldError for a path whose first name is not a name of Recipe, as
      "favorite" is not. Only the two user relations are modelled. */
  function ResolveLookup(path: string): (r: Result<Relation>)
    ensures r.Err? ==> r.error == ServerError("FieldError")
  {
    if path == "favorites__user" then Ok(FavoriteRelation)
    else if path == "shopping_cart__user" then Ok(CartRelation)
    else Err(ServerError("FieldError"))
  }

  /** filter_boolean_field with a given FILTER_MAP: for a true value and an
      authenticated viewer, the recipes the viewer has in the relation the
      map names; otherwise the recipes unchanged. A name missing from the map
      makes the filter call raise TypeError (a None keyword). */
  function FilterBooleanFieldWith(filterMap: string -> Option<string>, t: Tables, ids: seq<RecipeId>,
                                  name: string, value: bool, viewer: Viewer): (r: Result<seq<RecipeId>>)
    ensures !(value && viewer.Authenticated?) ==> r == Ok(ids)
    ensures r.Ok? ==> forall id :: id in r.value ==> id in ids
  {
    if value && viewer.Authenticated? then
      match filterMap(name)
      case None => Err(ServerError("TypeError"))
      case Some(path) =>
        match ResolveLookup(path)
        case Err(e) => Err(e)
        case Ok(rel) => Ok(Filter(ids, (id: RecipeId) => Pair(viewer.id, id) in t.Rows(rel)))
    else Ok(ids)
  }

  /** One boolean filter bound to `method`: an absent value leaves the
      recipes unchanged without looking the method up; otherwise a method the
      FilterSet does not define fails its lookup (AssertionError). */
  function RunBooleanFilter(method': string, filterMap: string -> Option<string>, t: Tables, ids: seq<RecipeId>,
                            name: string, value: Option<bool>, viewer: Viewer): Result<seq<RecipeId>> {
    if value.None? then Ok(ids)
    else if method' !in RecipeFilterMethods then Err(ServerError("AssertionError"))
    else FilterBooleanFieldWith(filterMap, t, ids, name, value.value, viewer)
  }

  /** As written, asking for favourites fails for every state and viewer:
      FILTER_MAP sends the lookup through "favorite", which is not a name of
      Recipe. */
  lemma FavoriteLookupAsWrittenFails(t: Tables, ids: seq<RecipeId>, u: UserId)
    ensures FilterBooleanFieldWith(FilterMapAsWritten, t, ids, "is_favorited", true, Authenticated(u))
         == Err(ServerError("FieldError"))
    ensures "favorite" !in RecipeFieldNames
  {
  }

  /** As written, a boolean filter given a value fails, since neither method
      its `method=` names is defined. */
  lemma BoundMethodsAsWrittenFail(t: Tables, ids: seq<RecipeId>, name: string, value: bool, viewer: Viewer)
    requires name in {"is_favorited", "is_in_shopping_cart"}
    ensures BoundMethodAsWritten(name) !in RecipeFilterMethods
    ensures RunBooleanFilter(BoundMethodAsWritten(name), FilterMap, t, ids, name, Some(value), viewer)
         == Err(ServerError("AssertionError"))
  {
  }

  /** The viewer has `id` in the relation whenever the flag asks for it. */
  predicate RelationOk(t: Tables, rel: Relation, value: Option<bool>, viewer: Viewer, id: RecipeId) {
    value == Some(true) && viewer.Authenticated? ==> Pair(viewer.id, id) in t.Rows(rel)
  }

  /** Corrected, each boolean filter never fails and keeps exactly the
      recipes its flag allows. */
  lemma BooleanFilterIsFilter(t: Tables, ids: seq<RecipeId>, name: string, rel: Relation, value: Option<bool>, viewer: Viewer)
    requires (name == "is_favorited" && rel == FavoriteRelation) || (name == "is_in_shopping_cart" && rel == CartRelation)
    ensures RunBooleanFilter(BooleanFilterMethod, FilterMap, t, ids, name, value, viewer)
         == Ok(Filter(ids, (id: RecipeId) => RelationOk(t, rel, value, viewer, id)))
  {
    var ok := (id: RecipeId) => RelationOk(t, rel, value, viewer, id);
    if value == Some(true) && viewer.Authenticated? {
      FilterAgree(ids, (id: RecipeId) => Pair(viewer.id, id) in t.Rows(rel), ok);
    } else {
      FilterAll(ids, ok);
    }
  }

  // ----- RecipeFilter: the filters -----

  /** The parsed query parameters; None is an absent or empty value. */
  datatype RecipeQuery = RecipeQuery(tags: seq<string>, isFavorited: Option<bool>, author: Option<int>,
                                     isInShoppingCart: Option<bool>)

  /** The choices of the tags filter: every slug some recipe carries. */
  function TagChoices(t: Tables): set<string> {
    set id, tg | id in t.recipes && tg in t.recipes[id].tags && tg in t.tags :: t.tags[tg].slug
  }

  /** Recipe id carries a tag whose slug is one of slugs. */
  predicate HasTagIn(t: Tables, id: RecipeId, slugs: seq<string>) {
    id in t.recipes && exists tg :: tg in t.recipes[id].tags && tg in t.tags && t.tags[tg].slug in slugs
  }

  function InvalidChoiceMessage(slug: string): string {
    "Select a valid choice. " + slug + " is not one of the available choices."
  }

  /** The form check of the tags values: the first value that is not a
      choice is reported. */
  function ValidateTags(t: Tables, slugs: seq<string>): (r: Outcome)
    ensures r.Pass? <==> forall s :: s in slugs ==> s in TagChoices(t)
    ensures r.Fail? ==> exists s :: s in slugs && s !in TagChoices(t) && r.error == Invalid(InvalidChoiceMessage(s))
    ensures r.Fail? ==>
      exists i :: (0 <= i < |slugs| && slugs[i] !in TagChoices(t) && (forall j :: 0 <= j < i ==> slugs[j] in TagChoices(t))
                   && r.error == Invalid(InvalidChoiceMessage(slugs[i])))
  {
    if slugs == [] then Pass
    else if slugs[0] !in TagChoices(t) then Fail(Invalid(InvalidChoiceMessage(slugs[0])))
    else
      assert forall s :: s in slugs <==> s == slugs[0] || s in slugs[1..];
      ValidateTags(t, slugs[1..])
  }

  /** The tags filter: no values keep every recipe; otherwise the recipes
      with any of the requested slugs, each once. */
  function FilterTags(t: Tables, ids: seq<RecipeId>, slugs: seq<string>): seq<RecipeId> {
    if slugs == [] then ids else Filter(ids, (id: RecipeId) => HasTagIn(t, id, slugs))
  }

  /** The author filter: the recipes whose author has the given id. */
  function FilterAuthor(t: Tables, ids: seq<RecipeId>, author: Option<int>): seq<RecipeId> {
    match author
    case None => ids
    case Some(a) => Filter(ids, (id: RecipeId) => id in t.recipes && t.recipes[id].author == a)
  }

  /** The filtering of the recipe list: the form check, then the filters in
      the order of Meta.fields. */
  function ApplyRecipeFilter(t: Tables, ids: seq<RecipeId>, q: RecipeQuery, viewer: Viewer): (r: Result<seq<RecipeId>>)
    ensures r.Err? <==> exists s :: s in q.tags && s !in TagChoices(t)
    ensures r.Err? ==> r.error.Invalid?
    ensures r.Ok? ==> |r.value| <= |ids| && forall id :: id in r.value ==> id in ids
  {
    match ValidateTags(t, q.tags)
    case Fail(e) => Err(e)
    case Pass =>
      var byAuthor := FilterAuthor(t, ids, q.author);
      var fav := RunBooleanFilter(BooleanFilterMethod, FilterMap, t, byAuthor, "is_favorited", q.isFavorited, viewer);
      if fav.Err? then fav
      else
        var cart := RunBooleanFilter(BooleanFilterMethod, FilterMap, t, fav.value, "is_in_shopping_cart", q.isInShoppingCart, viewer);
        if cart.Err? then cart
        else Ok(FilterTags(t, cart.value, q.tags))
  }

  predicate AuthorOk(t: Tables, author: Option<int>, id: RecipeId) {
    author.Some? ==> id in t.recipes && t.recipes[id].author == author.value
  }

  predicate TagOk(t: Tables, slugs: seq<string>, id: RecipeId) {
    slugs != [] ==> HasTagIn(t, id, slugs)
  }

  /** A recipe passes the query: every given filter accepts it. */
  predicate Matches(t: Tables, q: RecipeQuery, viewer: Viewer, id: RecipeId) {
    && AuthorOk(t, q.author, id)
    && RelationOk(t, FavoriteRelation, q.isFavorited, viewer, id)
    && RelationOk(t, CartRelation, q.isInShoppingCart, viewer, id)
    && TagOk(t, q.tags, id)
  }

  lemma FilterAuthorIsFilter(t: Tables, ids: seq<RecipeId>, author: Option<int>)
    ensures FilterAuthor(t, ids, author) == Filter(ids, (id: RecipeId) => AuthorOk(t, author, id))
  {
    var ok := (id: RecipeId) => AuthorOk(t, author, id);
    match author
    case None => FilterAll(ids, ok);
    case Some(a) => FilterAgree(ids, (id: RecipeId) => id in t.recipes && t.recipes[id].author == a, ok);
  }

  lemma FilterTagsIsFilter(t: Tables, ids: seq<RecipeId>, slugs: seq<string>)
    ensures FilterTags(t, ids, slugs) == Filter(ids, (id: RecipeId) => TagOk(t, slugs, id))
  {
    var ok := (id: RecipeId) => TagOk(t, slugs, id);
    if slugs == [] {
      FilterAll(ids, ok);
    } else {
      FilterAgree(ids, (id: RecipeId) => HasTagIn(t, id, slugs), ok);
    }
  }

  /** The recipe list filter fails exactly on a tag value that is not a
      choice; otherwise it keeps, in order, exactly the recipes that match
      every given filter. */
  lemma ApplyRecipeFilterSpec(t: Tables, ids: seq<RecipeId>, q: RecipeQuery, viewer: Viewer)
    ensures ApplyRecipeFilter(t, ids, q, viewer).Ok? <==> forall s :: s in q.tags ==> s in TagChoices(t)
    ensures ApplyRecipeFilter(t, ids, q, viewer).Ok? ==>
      ApplyRecipeFilter(t, ids, q, viewer).value == Filter(ids, (id: RecipeId) => Matches(t, q, viewer, id))
  {
    if ValidateTags(t, q.tags).Pass? {
      var pA := (id: RecipeId) => AuthorOk(t, q.author, id);
      var pF := (id: RecipeId) => RelationOk(t, FavoriteRelation, q.isFavorited, viewer, id);
      var pC := (id: RecipeId) => RelationOk(t, CartRelation, q.isInShoppingCart, viewer, id);
      var pT := (id: RecipeId) => TagOk(t, q.tags, id);
      var pAF := (id: RecipeId) => pA(id) && pF(id);
      var pAFC := (id: RecipeId) => pAF(id) && pC(id);
      var all := (id: RecipeId) => Matches(t, q, viewer, id);
      FilterAuthorIsFilter(t, ids, q.author);
      var byAuthor := FilterAuthor(t, ids, q.author);
      BooleanFilterIsFilter(t, byAuthor, "is_favorited", FavoriteRelation, q.isFavorited, viewer);
      FilterFilter(ids, pA, pF, pAF);
      var fav := Filter(ids, pAF);
      BooleanFilterIsFilter(t, fav, "is_in_shopping_cart", CartRelation, q.isInShoppingCart, viewer);
      FilterFilter(ids, pAF, pC, pAFC);
      var cart := Filter(ids, pAFC);
      FilterTagsIsFilter(t, cart, q.tags);
      FilterFilter(ids, pAFC, pT, all);
    }
  }

  /** For an anonymous viewer the two flags have no effect. */
  lemma AnonymousIgnoresFlags(t: Tables, ids: seq<RecipeId>, q: RecipeQuery)
    ensures ApplyRecipeFilter(t, ids, q, Anonymous)
         == ApplyRecipeFilter(t, ids, q.(isFavorited := None, isInShoppingCart := None), Anonymous)
  {
    var q' := q.(isFavorited := None, isInShoppingCart := None);
    ApplyRecipeFilterSpec(t, ids, q, Anonymous);
    ApplyRecipeFilterSpec(t, ids, q', Anonymous);
    if ApplyRecipeFilter(t, ids, q, Anonymous).Ok? {
      FilterAgree(ids, (id: RecipeId) => Matches(t, q, Anonymous, id), (id: RecipeId) => Matches(t, q', Anonymous, id));
    }
  }

  /** `?is_favorited=1` alone lists exactly the recipes the list shows with
      is_favorited true, and the same for the cart. */
  lemma FlagFilterAgreesWithAnnotation(t: Tables, ids: seq<RecipeId>, u: UserId, i: int)
    requires 0 <= i < |ids|
    ensures var r := ApplyRecipeFilter(t, ids, RecipeQuery([], Some(true), None, None), Authenticated(u));
      r.Ok? && (ids[i] in r.value <==> Annotate(t, ids, Authenticated(u))[i].isFavorited == Some(true))
    ensures var r := ApplyRecipeFilter(t, ids, RecipeQuery([], None, None, Some(true)), Authenticated(u));
      r.Ok? && (ids[i] in r.value <==> Annotate(t, ids, Authenticated(u))[i].isInShoppingCart == Some(true))
  {
    ApplyRecipeFilterSpec(t, ids, RecipeQuery([], Some(true), None, None), Authenticated(u));
    ApplyRecipeFilterSpec(t, ids, RecipeQuery([], None, None, Some(true)), Authenticated(u));
  }

  /** The filtered list keeps distinct recipes distinct. */
  lemma ApplyRecipeFilterDistinct(t: Tables, ids: seq<RecipeId>, q: RecipeQuery, viewer: Viewer)
    requires Distinct(ids)
    ensures ApplyRecipeFilter(t, ids, q, viewer).Ok? ==> Distinct(ApplyRecipeFilter(t, ids, q, viewer).value)
  {
    ApplyRecipeFilterSpec(t, ids, q, viewer);
    FilterDistinct(ids, (id: RecipeId) => Matches(t, q, viewer, id));
  }

  // ----- IngredientFilter -----

  /** `name__istartswith=value`, fold being the database's case folding. */
  predicate NameStarts(fold: string -> string, value: string, i: Ingredient) {
    StartsWith(fold(i.name), fold(value))
  }

  /** `name__icontains=value`. */
  predicate NameContains(fold: string -> string, value: string, i: Ingredient) {
    Contains(fold(i.name), fold(value))
  }

  /** filter_name: the ingredients whose name starts with or contains the
      value, those starting with it first (`order_by('-startswith')`). An
      empty value is not passed to the method: the list is unchanged. */
  function FilterName(items: seq<Ingredient>, value: string, fold: string -> string): (r: seq<Ingredient>)
    ensures forall x :: x in r ==> x in items
    ensures value != "" ==> forall x :: x in r ==> NameContains(fold, value, x)
  {
    if value == "" then items
    else
      MatchedIsContains(items, value, fold);
      var matched := Filter(items, (i: Ingredient) => NameStarts(fold, value, i) || NameContains(fold, value, i));
      Filter(matched, (i: Ingredient) => NameStarts(fold, value, i))
        + Filter(matched, (i: Ingredient) => !NameStarts(fold, value, i))
  }

  /** A name that starts with the value contains it, so the first filter of
      filter_name keeps exactly the names that contain the value. */
  lemma MatchedIsContains(items: seq<Ingredient>, value: string, fold: string -> string)
    ensures Filter(items, (i: Ingredient) => NameStarts(fold, value, i) || NameContains(fold, value, i))
         == Filter(items, (i: Ingredient) => NameContains(fold, value, i))
  {
    forall x | x in items && NameStarts(fold, value, x) ensures NameContains(fold, value, x) {
      StartsWithContains(fold(x.name), fold(value));
    }
    FilterAgree(items, (i: Ingredient) => NameStarts(fold, value, i) || NameContains(fold, value, i),
                (i: Ingredient) => NameContains(fold, value, i));
  }

  /** In a list of starting names followed by non-starting ones, every
      starting name comes before every other. */
  lemma StartersFirst(a: seq<Ingredient>, b: seq<Ingredient>, value: string, fold: string -> string)
    requires forall x :: x in a ==> NameStarts(fold, value, x)
    requires forall x :: x in b ==> !NameStarts(fold, value, x)
    ensures forall i, j :: 0 <= i < j < |a + b| && NameStarts(fold, value, (a + b)[j]) ==> NameStarts(fold, value, (a + b)[i])
  {
    var r := a + b;
    forall i, j | 0 <= i < j < |r| && NameStarts(fold, value, r[j]) ensures NameStarts(fold, value, r[i]) {
      assert r[i] in a;
    }
  }

  /** The name search keeps exactly the ingredients whose name contains the
      value, each as often as in the input, and lists every name that starts
      with the value before any that does not. */
  lemma FilterNameSpec(items: seq<Ingredient>, value: string, fold: string -> string)
    ensures value == "" ==> FilterName(items, value, fold) == items
    ensures var r := FilterName(items, value, fold);
      value != "" ==> forall x :: x in r <==> x in items && NameContains(fold, value, x)
    ensures var r := FilterName(items, value, fold);
      value != "" ==> multiset(r) == multiset(Filter(items, (i: Ingredient) => NameContains(fold, value, i)))
    ensures var r := FilterName(items, value, fold);
      value != "" ==> forall i, j :: 0 <= i < j < |r| && NameStarts(fold, value, r[j]) ==> NameStarts(fold, value, r[i])
  {
    if value != "" {
      var sw := (i: Ingredient) => NameStarts(fold, value, i);
      var nsw := (i: Ingredient) => !NameStarts(fold, value, i);
      var matched := Filter(items, (i: Ingredient) => NameStarts(fold, value, i) || NameContains(fold, value, i));
      MatchedIsContains(items, value, fold);
      var a := Filter(matched, sw);
      var b := Filter(matched, nsw);
      FilterSplit(matched, sw, nsw, (i: Ingredient) => true);
      FilterAll(matched, (i: Ingredient) => true);
      StartersFirst(a, b, value, fold);
    }
  }
}
