/** The checks and pure steps of api/serializers/recipes.py: the write
    serializer's validate and add_ingredients, the favourite duplicate check,
    the recipe list of a subscription and the base64 image header. The
    writes create and update themselves are methods of Store.Database. */
module RecipeSerializers {
  import opened Common
  import opened Seqs
  import opened Models

  // ----- RecipeSerializer -----

  /** One item of the `ingredients` field (AddIngredientSerializer). */
  datatype IngredientEntry = IngredientEntry(id: IngredientId, amount: int)

  /** The other writable fields of a recipe. */
  datatype RecipeFields = RecipeFields(name: string, text: string, cookingTime: int, image: string, tags: set<TagId>)

  const AmountMessage := "Количество не может быть меньше 1"
  const RepeatedMessage := "Такой ингредиент уже есть."

  /** The longest recipe name and text the model fields accept. */
  const NameMaxLength := 200
  const TextMaxLength := 255

  function Ids(entries: seq<IngredientEntry>): seq<IngredientId> {
    seq(|entries|, i requires 0 <= i < |entries| => entries[i].id)
  }

  /** The field-level checks that run before validate: the name and text
      lengths, cooking_time and every amount within 1..32767
      (MinValueValidator(1) and the small-integer range), every tag an
      existing one (PrimaryKeyRelatedField). */
  predicate FieldsValid(f: RecipeFields, entries: seq<IngredientEntry>, tags: map<TagId, Tag>) {
    && |f.name| <= NameMaxLength
    && |f.text| <= TextMaxLength
    && 1 <= f.cookingTime <= MaxSmallInt
    && f.tags <= tags.Keys
    && AmountsInRange(entries)
  }

  /** Every amount passes the field checks of RecipeIngredient.amount. */
  predicate AmountsInRange(entries: seq<IngredientEntry>) {
    forall e :: e in entries ==> 1 <= e.amount <= MaxSmallInt
  }

  /** What validate accepts: every amount positive and no ingredient id twice. */
  predicate ValidEntries(entries: seq<IngredientEntry>) {
    (forall e :: e in entries ==> e.amount > 0) && Distinct(Ids(entries))
  }

  /** RecipeSerializer.validate: one pass that fails on the first amount
      below 1 while collecting the ids, then a comparison of the number of
      distinct ids with the number of ids. `entries` is None when the
      request left `ingredients` out, as a partial update (PATCH) may; the
      loop then iterates over None and raises TypeError. */
  method Validate(entries: Option<seq<IngredientEntry>>) returns (r: Outcome)
    ensures entries.None? ==> r == Fail(ServerError("TypeError"))
    ensures r.Pass? <==> entries.Some? && ValidEntries(entries.value)
    ensures entries.Some? && (exists e :: e in entries.value && e.amount <= 0) ==> r == Fail(Invalid(AmountMessage))
    ensures entries.Some? && (forall e :: e in entries.value ==> e.amount > 0) && !Distinct(Ids(entries.value)) ==>
      r == Fail(Invalid(RepeatedMessage))
  {
    if entries.None? {
      return Fail(ServerError("TypeError"));
    }
    var items := entries.value;
    var ingredientsList: seq<IngredientId> := [];
    for i := 0 to |items|
      invariant ingredientsList == Ids(items[..i])
      invariant forall j :: 0 <= j < i ==> items[j].amount > 0
    {
      if items[i].amount <= 0 {
        assert items[i] in items;
        return Fail(Invalid(AmountMessage));
      }
      ingredientsList := ingredientsList + [items[i].id];
    }
    assert items[..|items|] == items;
    DistinctIffCardinality(ingredientsList);
    if |Elems(ingredientsList)| != |ingredientsList| {
      return Fail(Invalid(RepeatedMessage));
    }
    return Pass;
  }

  /** The lines add_ingredients writes for recipe: one per entry, in order. */
  function NewLines(recipe: RecipeId, entries: seq<IngredientEntry>): seq<Line> {
    seq(|entries|, i requires 0 <= i < |entries| => Line(recipe, entries[i].id, entries[i].amount))
  }

  /** add_ingredients: looks every id up (get_object_or_404) while building
      the lines; the first unknown id stops it with NotFound. */
  method AddIngredients(ingredients: map<IngredientId, Ingredient>, entries: seq<IngredientEntry>, recipe: RecipeId)
    returns (r: Result<seq<Line>>)
    ensures r.Err? <==> exists e :: e in entries && e.id !in ingredients
    ensures r.Err? ==> r.error == NotFound
    ensures r.Ok? ==> r.value == NewLines(recipe, entries)
  {
    var ingredientList: seq<Line> := [];
    for i := 0 to |entries|
      invariant ingredientList == NewLines(recipe, entries[..i])
      invariant forall j :: 0 <= j < i ==> entries[j].id in ingredients
    {
      if entries[i].id !in ingredients {
        assert entries[i] in entries;
        return Err(NotFound);
      }
      ingredientList := ingredientList + [Line(recipe, entries[i].id, entries[i].amount)];
    }
    assert entries[..|entries|] == entries;
    return Ok(ingredientList);
  }

  /** The written lines are exactly one per entry: a line belongs to the
      recipe and carries an entry's id and amount, and there are as many
      lines as entries. */
  lemma NewLinesMembership(recipe: RecipeId, entries: seq<IngredientEntry>)
    ensures |NewLines(recipe, entries)| == |entries|
    ensures forall l :: l in NewLines(recipe, entries) <==>
      l.recipe == recipe && IngredientEntry(l.ingredient, l.amount) in entries
  {
    var ls := NewLines(recipe, entries);
    forall l: Line | l.recipe == recipe && IngredientEntry(l.ingredient, l.amount) in entries
      ensures l in ls
    {
      var i :| 0 <= i < |entries| && entries[i] == IngredientEntry(l.ingredient, l.amount);
      assert ls[i] == l;
    }
  }

  /** Entries that passed the field checks and validate, all naming existing
      ingredients, give lines the line constraints accept. */
  lemma NewLinesFresh(recipe: RecipeId, entries: seq<IngredientEntry>, ingredients: map<IngredientId, Ingredient>)
    requires AmountsInRange(entries) && ValidEntries(entries)
    requires forall e :: e in entries ==> e.id in ingredients
    ensures FreshLinesOk(NewLines(recipe, entries), recipe, ingredients)
  {
    var ls := NewLines(recipe, entries);
    forall l | l in ls ensures l.recipe == recipe && 1 <= l.amount <= MaxSmallInt && l.ingredient in ingredients {
      var i :| 0 <= i < |ls| && ls[i] == l;
      assert entries[i] in entries;
    }
    forall i, j | 0 <= i < j < |ls| ensures LineKey(ls[i]) != LineKey(ls[j]) {
      assert Ids(entries)[i] == entries[i].id && Ids(entries)[j] == entries[j].id;
    }
  }

  // ----- FavoriteSerializer -----

  const FavoriteExistsMessage := "Этот рецепт уже добавлен в избранное!"

  /** FavoriteSerializer.validate: a pair that is already a favourite is refused. */
  function ValidateFavorite(favorites: seq<Pair>, p: Pair): (r: Outcome)
    ensures r.Fail? <==> p in favorites
    ensures r.Fail? ==> r.error == Duplicate(FavoriteExistsMessage)
  {
    if p in favorites then Fail(Duplicate(FavoriteExistsMessage)) else Pass
  }

  /** Adding a favourite twice: the second attempt is refused. */
  lemma FavoriteTwice(t: Tables, p: Pair)
    ensures ValidateFavorite(AddPair(t, FavoriteRelation, p).favorites, p).Fail?
  {
    assert AddPair(t, FavoriteRelation, p).favorites == t.favorites + [p];
    assert (t.favorites + [p])[|t.favorites|] == p;
  }

  // ----- UserSubscribeRepresentSerializer -----

  function Min(a: int, b: int): int {
    if a <= b then a else b
  }

  /** get_recipes: the author's recipes, cut to the first `recipes_limit` of
      them when the parameter is given and non-empty; slicing a queryset
      with a negative bound raises. `limit` is the parameter's integer value. */
  function GetRecipes(recipes: seq<RecipeId>, limit: Option<int>): (r: Result<seq<RecipeId>>)
    ensures r.Err? <==> limit.Some? && limit.value < 0
    ensures r.Ok? ==> r.value <= recipes
    ensures r.Ok? && limit.None? ==> r.value == recipes
    ensures r.Ok? && limit.Some? ==> |r.value| == Min(limit.value, |recipes|)
  {
    match limit
    case None => Ok(recipes)
    case Some(n) => if n < 0 then Err(ServerError("negative indexing")) else Ok(recipes[..Min(n, |recipes|)])
  }

  /** get_recipes_count: the number of recipes the author wrote. */
  function GetRecipesCount(t: Tables, author: UserId): (r: nat)
    ensures r <= |t.recipes|
    ensures r == 0 <==> forall id :: id in t.recipes ==> t.recipes[id].author != author
  {
    SubsetCard(AuthoredBy(t, author), t.recipes.Keys);
    NoneAuthored(t, author);
    |AuthoredBy(t, author)|
  }

  lemma NoneAuthored(t: Tables, author: UserId)
    ensures AuthoredBy(t, author) == {} <==> forall id :: id in t.recipes ==> t.recipes[id].author != author
  {
    var mine := AuthoredBy(t, author);
    assert forall id :: id in t.recipes && t.recipes[id].author == author ==> id in mine;
    if forall id :: id in t.recipes ==> t.recipes[id].author != author {
      assert forall x :: x !in mine;
    }
  }

  /** For a listing of the author's recipes (each once), the count is the
      listing's length whatever the limit, the limited list never has more,
      and a limit at least the count gives the whole listing. */
  lemma RecipesCountIgnoresLimit(t: Tables, author: UserId, recipes: seq<RecipeId>, limit: Option<int>)
    requires Distinct(recipes) && Elems(recipes) == AuthoredBy(t, author)
    ensures GetRecipesCount(t, author) == |recipes|
    ensures GetRecipes(recipes, limit).Ok? ==> |GetRecipes(recipes, limit).value| <= GetRecipesCount(t, author)
    ensures limit.Some? && limit.value >= GetRecipesCount(t, author) ==> GetRecipes(recipes, limit) == Ok(recipes)
  {
    DistinctIffCardinality(recipes);
    assert recipes[..|recipes|] == recipes;
  }

  // ----- Base64ImageField -----

  /** The value handed to the image field: a string, or anything else. */
  datatype ImageInput = Text(s: string) | NotText

  /** What to_internal_value passes on to ImageField: a named file built
      from the base64 payload, or the input as given. */
  datatype ImageValue = ImageFile(name: string, encoded: string) | Given(data: ImageInput)

  const ImagePrefix := "data:image"
  const Base64Marker := ";base64,"

  /** `header.split('/')[-1]`. */
  function Extension(header: string): string {
    Last(Split(header, "/"))
  }

  /** The extension is the text after the last '/' of the header, or the
      whole header when it has none. */
  lemma ExtensionSpec(header: string)
    ensures Free(Extension(header), "/")
    ensures TailAfterSeparator(header, "/", Extension(header))
  {
    SplitPiecesFree(header, "/");
    LastPieceIsSuffix(header, "/");
  }

  /** Base64ImageField.to_internal_value, up to the decoding: a string
      starting with "data:image" is split at ";base64,", which must occur
      exactly once (the two-name unpacking raises ValueError otherwise). */
  function ToInternalValue(data: ImageInput): (r: Result<ImageValue>)
    ensures !(data.Text? && StartsWith(data.s, ImagePrefix)) ==> r == Ok(Given(data))
    ensures r.Err? ==> r.error == ServerError("ValueError")
    ensures data.Text? && StartsWith(data.s, ImagePrefix) ==>
      (r.Err? <==> |Split(data.s, Base64Marker)| != 2) && (r.Ok? ==> r.value.ImageFile?)
    ensures r.Ok? && r.value.ImageFile? ==>
      data.Text? && StartsWith(data.s, ImagePrefix) &&
      exists header :: data.s == header + Base64Marker + r.value.encoded && r.value.name == "photo." + Extension(header)
  {
    if data.Text? && StartsWith(data.s, ImagePrefix) then
      var parts := Split(data.s, Base64Marker);
      if |parts| != 2 then Err(ServerError("ValueError"))
      else
        JoinSplit(data.s, Base64Marker);
        Ok(ImageFile("photo." + Extension(parts[0]), parts[1]))
    else Ok(Given(data))
  }

  /** A header and a payload around one ";base64," give back the payload and
      the header's extension. */
  lemma ImageHeaderRoundTrip(header: string, payload: string)
    requires StartsWith(header, ImagePrefix)
    requires Free(header, Base64Marker) && Free(payload, Base64Marker)
    ensures ToInternalValue(Text(header + Base64Marker + payload))
         == Ok(ImageFile("photo." + Extension(header), payload))
  {
    var s := header + Base64Marker + payload;
    SplitTwo(header, payload, Base64Marker);
    assert s[..|ImagePrefix|] == header[..|ImagePrefix|];
  }

  /** A "data:image" string with no ";base64," is refused. */
  lemma ImageWithoutMarker(s: string)
    requires StartsWith(s, ImagePrefix) && Free(s, Base64Marker)
    ensures ToInternalValue(Text(s)) == Err(ServerError("ValueError"))
  {
    IndexOfSpec(s, Base64Marker);
  }
  /** A "data:image" string with two or more ";base64," is refused too: the
      split gives more pieces than the two names unpacked from it. */
  lemma ImageWithSeveralMarkers(s: string, k1: int, k2: int)
    requires StartsWith(s, ImagePrefix)
    requires OccursAt(s, Base64Marker, k1) && OccursAt(s, Base64Marker, k2) && k1 < k2
    ensures ToInternalValue(Text(s)) == Err(ServerError("ValueError"))
  {
    CharsAt(s, Base64Marker, k1);
    CharsAt(s, Base64Marker, k2);
    assert forall j :: 0 < j < |Base64Marker| ==> Base64Marker[j] != Base64Marker[0];
    assert s[k2] == Base64Marker[0];
    assert k1 + |Base64Marker| <= k2;
    SplitAtLeastThree(s, Base64Marker, k1, k2);
  }

}
