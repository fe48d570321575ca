/** The database as the views and serializers change it: one field per
    table. Each write is all-or-nothing, as under `transaction.atomic` or a
    single query, and keeps every constraint of Models.Consistent. */
module Store {
  import opened Common
  import opened Seqs
  import opened Models
  import opened UsernameValidator
  import opened RecipeSerializers
  import opened UserSerializers
  import ShoppingList

  const NotFavoriteMessage := "Такого рецепта нет в избранном."
  const NotInCartMessage := "Такого рецепта нет в списке покупок."
  const NotSubscribedMessage := "Вы не подписаны на этого пользователя"
  /** The message of the check Follow.save makes. */
  const SaveSelfFollowMessage := "Невозможно подписаться на себя"

  /** A PATCH of a recipe: each field that was sent, or None. */
  datatype RecipePatch = RecipePatch(
    name: Option<string>, text: Option<string>, cookingTime: Option<int>, image: Option<string>,
    tags: Option<set<TagId>>)

  /** The field checks on the fields that were sent. */
  predicate PatchValid(p: RecipePatch, entries: seq<IngredientEntry>, tags: map<TagId, Tag>) {
    && (p.name.Some? ==> |p.name.value| <= NameMaxLength)
    && (p.text.Some? ==> |p.text.value| <= TextMaxLength)
    && (p.cookingTime.Some? ==> 1 <= p.cookingTime.value <= MaxSmallInt)
    && (p.tags.Some? ==> p.tags.value <= tags.Keys)
    && AmountsInRange(entries)
  }

  /** The recipe after `super().update` and `tags.set`: the fields sent
      replace the stored ones. */
  function ApplyPatch(r: Recipe, p: RecipePatch): (r': Recipe)
    requires p.tags.Some?
    ensures r'.author == r.author && r'.tags == p.tags.value
    ensures p.name.Some? ==> r'.name == p.name.value
    ensures p.name.None? ==> r'.name == r.name
    ensures p.text.Some? ==> r'.text == p.text.value
    ensures p.text.None? ==> r'.text == r.text
    ensures p.cookingTime.Some? ==> r'.cookingTime == p.cookingTime.value
    ensures p.cookingTime.None? ==> r'.cookingTime == r.cookingTime
    ensures p.image.Some? ==> r'.image == p.image.value
    ensures p.image.None? ==> r'.image == r.image
  {
    Recipe(r.author,
           if p.name.Some? then p.name.value else r.name,
           if p.text.Some? then p.text.value else r.text,
           if p.cookingTime.Some? then p.cookingTime.value else r.cookingTime,
           if p.image.Some? then p.image.value else r.image,
           p.tags.value)
  }

  lemma ApplyPatchOk(t: Tables, r: Recipe, p: RecipePatch, entries: seq<IngredientEntry>)
    requires RecipeOk(r, t.users, t.tags) && PatchValid(p, entries, t.tags) && p.tags.Some?
    ensures RecipeOk(ApplyPatch(r, p), t.users, t.tags)
  {
  }

  /** An update of recipe id by a patch that passed the field checks, with
      the lines add_ingredients built from validated entries, keeps every
      constraint. */
  lemma UpdateStepsConsistent(t: Tables, id: RecipeId, p: RecipePatch, entries: seq<IngredientEntry>,
                              newLines: seq<Line>, lower: string -> string, isWordChar: char -> bool)
    requires Consistent(t, lower, isWordChar) && id in t.recipes && p.tags.Some?
    requires PatchValid(p, entries, t.tags) && ValidEntries(entries)
    requires forall e :: e in entries ==> e.id in t.ingredients
    requires newLines == NewLines(id, entries)
    ensures Consistent(Models.UpdateRecipe(t, id, ApplyPatch(t.recipes[id], p), newLines), lower, isWordChar)
  {
    NewLinesFresh(id, entries, t.ingredients);
    ApplyPatchOk(t, t.recipes[id], p, entries);
    UpdateRecipeConsistent(t, id, ApplyPatch(t.recipes[id], p), newLines, lower, isWordChar);
  }

  class Database {
    var users: map<UserId, User>
    var ingredients: map<IngredientId, Ingredient>
    var tags: map<TagId, Tag>
    var recipes: map<RecipeId, Recipe>
    var lines: seq<Line>
    var favorites: seq<Pair>
    var cart: seq<Pair>
    var follows: seq<Follow>
    var nextUser: int
    var nextRecipe: int
    /** Python's `str.lower` and the `\w` class the username validator uses. */
    const lower: string -> string
    const isWordChar: char -> bool

    /** The tables as one value. */
    function Snapshot(): Tables
      reads this
    {
      Tables(users, ingredients, tags, recipes, lines, favorites, cart, follows, nextUser, nextRecipe)
    }

    predicate Valid()
      reads this
    {
      Consistent(Snapshot(), lower, isWordChar)
    }

    /** An empty site with its ingredient and tag catalogues. */
    constructor(lower: string -> string, isWordChar: char -> bool,
                ingredients: map<IngredientId, Ingredient>, tags: map<TagId, Tag>)
      requires TagsOk(tags)
      ensures Valid()
      ensures Snapshot() == Tables(map[], ingredients, tags, map[], [], [], [], [], 1, 1)
    {
      this.lower := lower;
      this.isWordChar := isWordChar;
      this.users := map[];
      this.ingredients := ingredients;
      this.tags := tags;
      this.recipes := map[];
      this.lines := [];
      this.favorites := [];
      this.cart := [];
      this.follows := [];
      this.nextUser := 1;
      this.nextRecipe := 1;
    }

    /** Puts every table back as it was (a transaction rolled back). */
    method Restore(saved: Tables)
      modifies this
      ensures Snapshot() == saved
    {
      users, ingredients, tags, recipes := saved.users, saved.ingredients, saved.tags, saved.recipes;
      lines, favorites, cart, follows := saved.lines, saved.favorites, saved.cart, saved.follows;
      nextUser, nextRecipe := saved.nextUser, saved.nextRecipe;
    }

    /** A registered user, stored once its username passed validate_username
        and its username and email are free. */
    method AddUser(u: User) returns (id: UserId)
      requires Valid()
      requires ValidateUsername(u.username, lower, isWordChar).Ok?
      requires forall v :: v in users ==> users[v].username != u.username && users[v].email != u.email
      modifies this
      ensures Valid()
      ensures id == old(nextUser) && id in users
      ensures Snapshot() == Models.AddUser(old(Snapshot()), u)
    {
      AddUserConsistent(Snapshot(), u, lower, isWordChar);
      id := nextUser;
      users := users[id := u];
      nextUser := nextUser + 1;
    }

    /** RecipeSerializer.create for author on validated data: the recipe
        row, its tags, then add_ingredients; an unknown ingredient rolls
        everything back. */
    method CreateRecipe(author: UserId, f: RecipeFields, entries: seq<IngredientEntry>) returns (r: Result<RecipeId>)
      requires Valid() && author in users
      requires FieldsValid(f, entries, tags) && ValidEntries(entries)
      modifies this
      ensures Valid()
      ensures r.Err? <==> exists e :: e in entries && e.id !in old(ingredients)
      ensures r.Err? ==> r.error == NotFound && Snapshot() == old(Snapshot())
      ensures r.Ok? ==> r.value == old(nextRecipe) && r.value !in old(recipes)
      ensures r.Ok? ==> Snapshot() == Models.CreateRecipe(old(Snapshot()),
        Recipe(author, f.name, f.text, f.cookingTime, f.image, f.tags), NewLines(r.value, entries))
    {
      var saved := Snapshot();
      assert nextRecipe !in recipes;
      var id := nextRecipe;
      recipes := recipes[id := Recipe(author, f.name, f.text, f.cookingTime, f.image, {})];
      nextRecipe := nextRecipe + 1;
      recipes := recipes[id := recipes[id].(tags := f.tags)];
      var added := AddIngredients(ingredients, entries, id);
      if added.Err? {
        Restore(saved);
        return Err(added.error);
      }
      lines := lines + added.value;
      var created := Recipe(author, f.name, f.text, f.cookingTime, f.image, f.tags);
      assert recipes == saved.recipes[id := created];
      assert lines == saved.lines + added.value;
      NewLinesFresh(id, entries, saved.ingredients);
      CreateRecipeConsistent(saved, created, added.value, lower, isWordChar);
      return Ok(id);
    }

    /** RecipeSerializer.update of recipe id (found by the view, else 404)
        on validated data. A PATCH without tags fails at
        `validated_data.pop('tags')` before anything is written; otherwise
        the writes are those of WriteUpdate. */
    method UpdateRecipe(id: RecipeId, p: RecipePatch, entries: seq<IngredientEntry>) returns (r: Outcome)
      requires Valid()
      requires PatchValid(p, entries, tags) && ValidEntries(entries)
      modifies this
      ensures Valid()
      ensures r.Fail? ==> Snapshot() == old(Snapshot())
      ensures r.Pass? <==> id in old(recipes) && p.tags.Some? && forall e :: e in entries ==> e.id in old(ingredients)
      ensures id !in old(recipes) ==> r == Fail(NotFound)
      ensures id in old(recipes) && p.tags.None? ==> r == Fail(ServerError("KeyError"))
      ensures id in old(recipes) && p.tags.Some? && (exists e :: e in entries && e.id !in old(ingredients)) ==>
        r == Fail(NotFound)
      ensures r.Pass? ==>
        Snapshot() == Models.UpdateRecipe(old(Snapshot()), id, ApplyPatch(old(recipes[id]), p), NewLines(id, entries))
    {
      if id !in recipes {
        return Fail(NotFound);
      }
      if p.tags.None? {
        return Fail(ServerError("KeyError"));
      }
      r := WriteUpdate(id, p, entries);
    }

    /** The writes of RecipeSerializer.update under `transaction.atomic`:
        the tags, the removal of every old line, the fields sent, then
        add_ingredients; an unknown ingredient rolls everything back. */
    method WriteUpdate(id: RecipeId, p: RecipePatch, entries: seq<IngredientEntry>) returns (r: Outcome)
      requires Valid() && id in recipes && p.tags.Some?
      requires PatchValid(p, entries, tags) && ValidEntries(entries)
      modifies this
      ensures Valid()
      ensures r.Pass? <==> forall e :: e in entries ==> e.id in old(ingredients)
      ensures r.Fail? ==> r == Fail(NotFound) && Snapshot() == old(Snapshot())
      ensures r.Pass? ==>
        Snapshot() == Models.UpdateRecipe(old(Snapshot()), id, ApplyPatch(old(recipes[id]), p), NewLines(id, entries))
    {
      var saved := Snapshot();
      var updated := ApplyPatch(saved.recipes[id], p);
      recipes := recipes[id := recipes[id].(tags := {})];
      recipes := recipes[id := recipes[id].(tags := p.tags.value)];
      lines := Filter(lines, (l: Line) => l.recipe != id);
      recipes := recipes[id := updated];
      var added := AddIngredients(ingredients, entries, id);
      if added.Err? {
        Restore(saved);
        return Fail(added.error);
      }
      lines := lines + added.value;
      assert recipes == saved.recipes[id := updated];
      assert lines == Filter(saved.lines, (l: Line) => l.recipe != id) + added.value;
      UpdateStepsConsistent(saved, id, p, entries, added.value, lower, isWordChar);
      return Pass;
    }

    /** The destroy action: the recipe and, by cascade, its lines, favourites
        and cart rows. */
    method DeleteRecipe(id: RecipeId) returns (r: Outcome)
      requires Valid()
      modifies this
      ensures Valid()
      ensures r.Fail? <==> id !in old(recipes)
      ensures r.Fail? ==> r.error == NotFound && Snapshot() == old(Snapshot())
      ensures r.Pass? ==> Snapshot() == Models.DeleteRecipe(old(Snapshot()), id)
    {
      if id !in recipes {
        return Fail(NotFound);
      }
      var after := Models.DeleteRecipe(Snapshot(), id);
      DeleteRecipeConsistent(Snapshot(), id, lower, isWordChar);
      Restore(after);
      return Pass;
    }

    /** Deleting a user and, by cascade, everything that refers to them. */
    method DeleteUser(u: UserId) returns (r: Outcome)
      requires Valid()
      modifies this
      ensures Valid()
      ensures r.Fail? <==> u !in old(users)
      ensures r.Fail? ==> r.error == NotFound && Snapshot() == old(Snapshot())
      ensures r.Pass? ==> Snapshot() == Models.DeleteUser(old(Snapshot()), u)
    {
      if u !in users {
        return Fail(NotFound);
      }
      var after := Models.DeleteUser(Snapshot(), u);
      DeleteUserConsistent(Snapshot(), u, lower, isWordChar);
      Restore(after);
      return Pass;
    }

    /** The favorite and shopping_cart POST actions: get_object_or_404 on
        the recipe, then create_model. A favourite that exists is refused by
        FavoriteSerializer.validate; ShoppingCartSerializer has no check that
        runs, so a cart row that exists reaches save() and the database's
        unique constraint raises IntegrityError. */
    method AddToRelation(rel: Relation, user: UserId, recipe: RecipeId) returns (r: Outcome)
      requires Valid() && user in users
      modifies this
      ensures Valid()
      ensures r.Pass? <==> recipe in old(recipes) && Pair(user, recipe) !in old(Snapshot()).Rows(rel)
      ensures recipe !in old(recipes) ==> r == Fail(NotFound)
      ensures recipe in old(recipes) && Pair(user, recipe) in old(Snapshot()).Rows(rel) ==>
        r == (if rel == FavoriteRelation then Fail(Duplicate(FavoriteExistsMessage)) else Fail(ServerError("IntegrityError")))
      ensures r.Fail? ==> Snapshot() == old(Snapshot())
      ensures r.Pass? ==> Snapshot() == AddPair(old(Snapshot()), rel, Pair(user, recipe))
    {
      if recipe !in recipes {
        return Fail(NotFound);
      }
      var p := Pair(user, recipe);
      if rel == FavoriteRelation {
        var v := ValidateFavorite(favorites, p);
        if v.Fail? {
          return v;
        }
      } else if p in cart {
        return Fail(ServerError("IntegrityError"));
      }
      AddPairConsistent(Snapshot(), rel, p, lower, isWordChar);
      if rel == FavoriteRelation {
        favorites := favorites + [p];
      } else {
        cart := cart + [p];
      }
      return Pass;
    }

    /** The favorite and shopping_cart DELETE actions: get_object_or_404 on
        the recipe, then delete_model, which refuses a pair that does not
        exist and otherwise deletes it. */
    method RemoveFromRelation(rel: Relation, user: UserId, recipe: RecipeId) returns (r: Outcome)
      requires Valid()
      modifies this
      ensures Valid()
      ensures r.Pass? <==> recipe in old(recipes) && Pair(user, recipe) in old(Snapshot()).Rows(rel)
      ensures recipe !in old(recipes) ==> r == Fail(NotFound)
      ensures recipe in old(recipes) && Pair(user, recipe) !in old(Snapshot()).Rows(rel) ==>
        r == Fail(Missing(if rel == FavoriteRelation then NotFavoriteMessage else NotInCartMessage))
      ensures r.Fail? ==> Snapshot() == old(Snapshot())
      ensures r.Pass? ==> Snapshot() == RemovePair(old(Snapshot()), rel, Pair(user, recipe))
    {
      if recipe !in recipes {
        return Fail(NotFound);
      }
      var p := Pair(user, recipe);
      if p !in Snapshot().Rows(rel) {
        return Fail(Missing(if rel == FavoriteRelation then NotFavoriteMessage else NotInCartMessage));
      }
      RemovePairConsistent(Snapshot(), rel, p, lower, isWordChar);
      if rel == FavoriteRelation {
        favorites := Filter(favorites, (q: Pair) => q != p);
      } else {
        cart := Filter(cart, (q: Pair) => q != p);
      }
      return Pass;
    }

    /** Follow.save: refuses a self-subscription; the unique constraint
        refuses a second row for the same pair. */
    method SaveFollow(f: Follow) returns (r: Outcome)
      requires Valid() && f.user in users && f.author in users
      modifies this
      ensures Valid()
      ensures f.user == f.author ==> r == Fail(SelfFollow(SaveSelfFollowMessage))
      ensures f.user != f.author && f in old(follows) ==> r == Fail(ServerError("IntegrityError"))
      ensures r.Fail? ==> Snapshot() == old(Snapshot())
      ensures r.Pass? <==> f.user != f.author && f !in old(follows)
      ensures r.Pass? ==> Snapshot() == Models.AddFollow(old(Snapshot()), f)
    {
      if f.user == f.author {
        return Fail(SelfFollow(SaveSelfFollowMessage));
      }
      if f in follows {
        return Fail(ServerError("IntegrityError"));
      }
      AddFollowConsistent(Snapshot(), f, lower, isWordChar);
      follows := follows + [f];
      return Pass;
    }

    /** UserSubscribeView.post: get_object_or_404 on the author, the
        serializer's checks, then the save. */
    method Subscribe(user: UserId, author: UserId) returns (r: Outcome)
      requires Valid() && user in users
      modifies this
      ensures Valid()
      ensures r.Pass? <==> author in old(users) && Follow(user, author) !in old(follows) && user != author
      ensures author !in old(users) ==> r == Fail(NotFound)
      ensures author in old(users) ==> r == ValidateSubscription(old(follows), user, author)
      ensures r.Fail? ==> Snapshot() == old(Snapshot())
      ensures r.Pass? ==> Snapshot() == Models.AddFollow(old(Snapshot()), Follow(user, author))
    {
      if author !in users {
        return Fail(NotFound);
      }
      r := ValidateSubscription(follows, user, author);
      if r.Fail? {
        return;
      }
      r := SaveFollow(Follow(user, author));
    }

    /** UserSubscribeView.delete: get_object_or_404 on the author, then the
        existence check, then the deletion of that one row. */
    method Unsubscribe(user: UserId, author: UserId) returns (r: Outcome)
      requires Valid()
      modifies this
      ensures Valid()
      ensures r.Pass? <==> author in old(users) && Follow(user, author) in old(follows)
      ensures author !in old(users) ==> r == Fail(NotFound)
      ensures author in old(users) && Follow(user, author) !in old(follows) ==> r == Fail(Missing(NotSubscribedMessage))
      ensures r.Fail? ==> Snapshot() == old(Snapshot())
      ensures r.Pass? ==> Snapshot() == Models.RemoveFollow(old(Snapshot()), Follow(user, author))
    {
      if author !in users {
        return Fail(NotFound);
      }
      var f := Follow(user, author);
      if f !in follows {
        return Fail(Missing(NotSubscribedMessage));
      }
      RemoveFollowConsistent(Snapshot(), f, lower, isWordChar);
      follows := Filter(follows, (g: Follow) => g != f);
      return Pass;
    }

    /** The download_shopping_cart action. */
    method DownloadShoppingCart(user: UserId) returns (content: string)
      ensures content == ShoppingList.Header + ShoppingList.Blocks(ShoppingList.ShoppingRows(Snapshot(), user))
    {
      content := ShoppingList.CreateShoppingCartFile(Snapshot(), user);
    }
  }
}
