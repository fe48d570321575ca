/** The tables of recipes/models.py and users/models.py, the constraints the
    database keeps on them, and the effect of each write on the tables. */
module Models {
  import opened Common
  import opened Seqs
  import opened UsernameValidator

  type UserId = int
  type RecipeId = int
  type IngredientId = int
  type TagId = int

  /** The largest value a PositiveSmallIntegerField holds. */
  const MaxSmallInt := 32767

  datatype User = User(username: string, email: string, isStaff: bool, isSuperuser: bool)
  datatype Ingredient = Ingredient(name: string, unit: string)
  datatype Tag = Tag(name: string, color: string, slug: string)
  datatype Recipe = Recipe(author: UserId, name: string, text: string, cookingTime: int, image: string, tags: set<TagId>)
  /** One ingredient line of a recipe (RecipeIngredient). */
  datatype Line = Line(recipe: RecipeId, ingredient: IngredientId, amount: int)
  /** A Favorite or ShoppingCart row. */
  datatype Pair = Pair(user: UserId, recipe: RecipeId)
  /** A Follow row: `user` subscribes to `author`. */
  datatype Follow = Follow(user: UserId, author: UserId)

  /** The user a request comes from. */
  datatype Viewer = Anonymous | Authenticated(id: UserId)

  /** The two (user, recipe) relations the recipe views share one helper for. */
  datatype Relation = FavoriteRelation | CartRelation

  /** The whole database: one field per table; the `next` counters are the
      auto-increment primary-key sequences. */
  datatype Tables = Tables(
    users: map<UserId, User>,
    ingredients: map<IngredientId, Ingredient>,
    tags: map<TagId, Tag>,
    recipes: map<RecipeId, Recipe>,
    lines: seq<Line>,
    favorites: seq<Pair>,
    cart: seq<Pair>,
    follows: seq<Follow>,
    nextUser: int,
    nextRecipe: int)
  {
    function Rows(rel: Relation): seq<Pair> {
      if rel == FavoriteRelation then favorites else cart
    }

    function WithRows(rel: Relation, rows: seq<Pair>): (t: Tables)
      ensures t.Rows(rel) == rows
    {
      if rel == FavoriteRelation then this.(favorites := rows) else this.(cart := rows)
    }
  }

  function LineKey(l: Line): (RecipeId, IngredientId) {
    (l.recipe, l.ingredient)
  }

  // ----- Constraints (field validators, foreign keys, unique constraints) -----

  /** cooking_time has MinValueValidator(1) and fits a small integer; author and tags exist. */
  predicate RecipeOk(r: Recipe, users: map<UserId, User>, tags: map<TagId, Tag>) {
    1 <= r.cookingTime <= MaxSmallInt && r.author in users && r.tags <= tags.Keys
  }

  /** amount has MinValueValidator(1) and fits a small integer; both foreign keys exist. */
  predicate LineOk(l: Line, recipes: map<RecipeId, Recipe>, ingredients: map<IngredientId, Ingredient>) {
    1 <= l.amount <= MaxSmallInt && l.recipe in recipes && l.ingredient in ingredients
  }

  /** UniqueConstraint unique_favorite_recipe / unique_recipe_in_shopping_cart and both foreign keys. */
  predicate PairsOk(rows: seq<Pair>, users: map<UserId, User>, recipes: map<RecipeId, Recipe>) {
    Distinct(rows) && forall p :: p in rows ==> p.user in users && p.recipe in recipes
  }

  /** UniqueConstraint unique_follower, the Follow.save guard and both foreign keys. */
  predicate FollowsOk(rows: seq<Follow>, users: map<UserId, User>) {
    Distinct(rows) && forall f :: f in rows ==> f.user != f.author && f.user in users && f.author in users
  }

  /** username and email are each unique; every username passed validate_username. */
  predicate UsersOk(users: map<UserId, User>, lower: string -> string, isWordChar: char -> bool) {
    && (forall u :: u in users ==> ValidateUsername(users[u].username, lower, isWordChar).Ok?)
    && (forall u, v :: u in users && v in users && u != v ==>
          users[u].username != users[v].username && users[u].email != users[v].email)
  }

  /** Tag name, color and slug are each unique. */
  predicate TagsOk(tags: map<TagId, Tag>) {
    forall a, b :: a in tags && b in tags && a != b ==>
      tags[a].name != tags[b].name && tags[a].color != tags[b].color && tags[a].slug != tags[b].slug
  }

  predicate RecipesOk(t: Tables) {
    forall id :: id in t.recipes ==> id < t.nextRecipe && RecipeOk(t.recipes[id], t.users, t.tags)
  }

  predicate LinesOk(t: Tables) {
    (forall l :: l in t.lines ==> LineOk(l, t.recipes, t.ingredients)) && DistinctBy(t.lines, LineKey)
  }

  /** Every constraint the database keeps. The next primary keys are then
      free, so a created row never overwrites one. */
  predicate Consistent(t: Tables, lower: string -> string, isWordChar: char -> bool)
    ensures Consistent(t, lower, isWordChar) ==> t.nextUser !in t.users && t.nextRecipe !in t.recipes
  {
    && UsersOk(t.users, lower, isWordChar)
    && (forall u :: u in t.users ==> u < t.nextUser)
    && TagsOk(t.tags)
    && RecipesOk(t)
    && LinesOk(t)
    && PairsOk(t.favorites, t.users, t.recipes)
    && PairsOk(t.cart, t.users, t.recipes)
    && FollowsOk(t.follows, t.users)
  }

  // ----- The effect of each write -----

  /** A new Favorite or ShoppingCart row. */
  function AddPair(t: Tables, rel: Relation, p: Pair): Tables {
    t.WithRows(rel, t.Rows(rel) + [p])
  }

  /** `model.objects.filter(user=..., recipe=...).delete()`. */
  function RemovePair(t: Tables, rel: Relation, p: Pair): Tables {
    t.WithRows(rel, Filter(t.Rows(rel), (q: Pair) => q != p))
  }

  function AddFollow(t: Tables, f: Follow): Tables {
    t.(follows := t.follows + [f])
  }

  function RemoveFollow(t: Tables, f: Follow): Tables {
    t.(follows := Filter(t.follows, (g: Follow) => g != f))
  }

  /** A new user row under the next primary key. */
  function AddUser(t: Tables, u: User): Tables {
    t.(users := t.users[t.nextUser := u], nextUser := t.nextUser + 1)
  }

  /** A new recipe under the next primary key, with its lines appended. */
  function CreateRecipe(t: Tables, r: Recipe, newLines: seq<Line>): Tables {
    t.(recipes := t.recipes[t.nextRecipe := r], lines := t.lines + newLines, nextRecipe := t.nextRecipe + 1)
  }

  /** The recipe's row replaced and all its old lines replaced by newLines. */
  function UpdateRecipe(t: Tables, id: RecipeId, r: Recipe, newLines: seq<Line>): Tables {
    t.(recipes := t.recipes[id := r], lines := Filter(t.lines, (l: Line) => l.recipe != id) + newLines)
  }

  /** Deleting a recipe cascades to its lines, favorites and cart rows. */
  function DeleteRecipe(t: Tables, id: RecipeId): Tables {
    t.(recipes := t.recipes - {id},
       lines := Filter(t.lines, (l: Line) => l.recipe != id),
       favorites := Filter(t.favorites, (p: Pair) => p.recipe != id),
       cart := Filter(t.cart, (p: Pair) => p.recipe != id))
  }

  /** The recipes a user authored. */
  function AuthoredBy(t: Tables, u: UserId): set<RecipeId> {
    set id | id in t.recipes && t.recipes[id].author == u
  }

  /** Deleting a user cascades to their recipes (and so to those recipes'
      lines, favorites and cart rows), their own favorites and cart rows, and
      every Follow row naming them on either side. */
  function DeleteUser(t: Tables, u: UserId): Tables {
    var gone := AuthoredBy(t, u);
    t.(users := t.users - {u},
       recipes := t.recipes - gone,
       lines := Filter(t.lines, (l: Line) => l.recipe !in gone),
       favorites := Filter(t.favorites, (p: Pair) => p.user != u && p.recipe !in gone),
       cart := Filter(t.cart, (p: Pair) => p.user != u && p.recipe !in gone),
       follows := Filter(t.follows, (f: Follow) => f.user != u && f.author != u))
  }

  // ----- Every write keeps the constraints -----

  lemma AddPairConsistent(t: Tables, rel: Relation, p: Pair, lower: string -> string, isWordChar: char -> bool)
    requires Consistent(t, lower, isWordChar)
    requires p.user in t.users && p.recipe in t.recipes && p !in t.Rows(rel)
    ensures Consistent(AddPair(t, rel, p), lower, isWordChar)
  {
    DistinctSnoc(t.Rows(rel), p);
  }

  lemma RemovePairConsistent(t: Tables, rel: Relation, p: Pair, lower: string -> string, isWordChar: char -> bool)
    requires Consistent(t, lower, isWordChar)
    ensures Consistent(RemovePair(t, rel, p), lower, isWordChar)
  {
    FilterDistinct(t.Rows(rel), (q: Pair) => q != p);
  }

  lemma AddFollowConsistent(t: Tables, f: Follow, lower: string -> string, isWordChar: char -> bool)
    requires Consistent(t, lower, isWordChar)
    requires f.user in t.users && f.author in t.users && f.user != f.author && f !in t.follows
    ensures Consistent(AddFollow(t, f), lower, isWordChar)
  {
    DistinctSnoc(t.follows, f);
  }

  lemma RemoveFollowConsistent(t: Tables, f: Follow, lower: string -> string, isWordChar: char -> bool)
    requires Consistent(t, lower, isWordChar)
    ensures Consistent(RemoveFollow(t, f), lower, isWordChar)
  {
    FilterDistinct(t.follows, (g: Follow) => g != f);
  }

  lemma AddUserConsistent(t: Tables, u: User, lower: string -> string, isWordChar: char -> bool)
    requires Consistent(t, lower, isWordChar)
    requires ValidateUsername(u.username, lower, isWordChar).Ok?
    requires forall v :: v in t.users ==> t.users[v].username != u.username && t.users[v].email != u.email
    ensures Consistent(AddUser(t, u), lower, isWordChar)
  {
    var t' := AddUser(t, u);
    assert t.nextUser !in t.users;
    forall a, b | a in t'.users && b in t'.users && a != b
      ensures t'.users[a].username != t'.users[b].username && t'.users[a].email != t'.users[b].email
    {
      if a == t.nextUser {
        assert t'.users[b] == t.users[b];
      } else if b == t.nextUser {
        assert t'.users[a] == t.users[a];
      }
    }
  }

  /** Lines that all belong to recipe id, carry a valid amount and name existing ingredients. */
  predicate FreshLinesOk(newLines: seq<Line>, id: RecipeId, ingredients: map<IngredientId, Ingredient>) {
    && (forall l :: l in newLines ==> l.recipe == id && 1 <= l.amount <= MaxSmallInt && l.ingredient in ingredients)
    && DistinctBy(newLines, LineKey)
  }

  lemma CreateRecipeConsistent(t: Tables, r: Recipe, newLines: seq<Line>, lower: string -> string, isWordChar: char -> bool)
    requires Consistent(t, lower, isWordChar)
    requires RecipeOk(r, t.users, t.tags) && FreshLinesOk(newLines, t.nextRecipe, t.ingredients)
    ensures Consistent(CreateRecipe(t, r, newLines), lower, isWordChar)
  {
    var t' := CreateRecipe(t, r, newLines);
    assert t.nextRecipe !in t.recipes;
    forall x, y | x in t.lines && y in newLines ensures LineKey(x) != LineKey(y) {
      assert x.recipe in t.recipes;
    }
    DistinctByAppend(t.lines, newLines, LineKey);
    forall l | l in t'.lines ensures LineOk(l, t'.recipes, t'.ingredients) {
      if l in t.lines {
        assert LineOk(l, t.recipes, t.ingredients);
      }
    }
  }

  lemma UpdateRecipeConsistent(t: Tables, id: RecipeId, r: Recipe, newLines: seq<Line>,
                               lower: string -> string, isWordChar: char -> bool)
    requires Consistent(t, lower, isWordChar)
    requires id in t.recipes && RecipeOk(r, t.users, t.tags) && FreshLinesOk(newLines, id, t.ingredients)
    ensures Consistent(UpdateRecipe(t, id, r, newLines), lower, isWordChar)
  {
    var kept := Filter(t.lines, (l: Line) => l.recipe != id);
    FilterDistinctBy(t.lines, (l: Line) => l.recipe != id, LineKey);
    DistinctByAppend(kept, newLines, LineKey);
    var t' := UpdateRecipe(t, id, r, newLines);
    forall l | l in t'.lines ensures LineOk(l, t'.recipes, t'.ingredients) {
      if l in kept {
        assert LineOk(l, t.recipes, t.ingredients);
      }
    }
  }

  lemma DeleteRecipeConsistent(t: Tables, id: RecipeId, lower: string -> string, isWordChar: char -> bool)
    requires Consistent(t, lower, isWordChar)
    ensures Consistent(DeleteRecipe(t, id), lower, isWordChar)
  {
    FilterDistinctBy(t.lines, (l: Line) => l.recipe != id, LineKey);
    FilterDistinct(t.favorites, (p: Pair) => p.recipe != id);
    FilterDistinct(t.cart, (p: Pair) => p.recipe != id);
    var t' := DeleteRecipe(t, id);
    forall l | l in t'.lines ensures LineOk(l, t'.recipes, t'.ingredients) {
      assert LineOk(l, t.recipes, t.ingredients);
    }
  }

  lemma DeleteUserConsistent(t: Tables, u: UserId, lower: string -> string, isWordChar: char -> bool)
    requires Consistent(t, lower, isWordChar)
    ensures Consistent(DeleteUser(t, u), lower, isWordChar)
  {
    var gone := AuthoredBy(t, u);
    var t' := DeleteUser(t, u);
    DeleteUserKeepsUsers(t.users, u, lower, isWordChar);
    DeleteUserKeepsRecipes(t, u);
    DeleteUserKeepsLines(t, u);
    FilterPairsOk(t.favorites, t.users, t.recipes, u, gone);
    FilterPairsOk(t.cart, t.users, t.recipes, u, gone);
    DeleteUserKeepsFollows(t.follows, t.users, u);
    assert t'.users == t.users - {u} && t'.tags == t.tags;
    assert t'.follows == Filter(t.follows, (f: Follow) => f.user != u && f.author != u);
  }

  lemma DeleteUserKeepsUsers(users: map<UserId, User>, u: UserId, lower: string -> string, isWordChar: char -> bool)
    requires UsersOk(users, lower, isWordChar)
    ensures UsersOk(users - {u}, lower, isWordChar)
  {
  }

  lemma DeleteUserKeepsFollows(rows: seq<Follow>, users: map<UserId, User>, u: UserId)
    requires FollowsOk(rows, users)
    ensures FollowsOk(Filter(rows, (f: Follow) => f.user != u && f.author != u), users - {u})
  {
    FilterDistinct(rows, (f: Follow) => f.user != u && f.author != u);
  }

  lemma DeleteUserKeepsRecipes(t: Tables, u: UserId)
    requires RecipesOk(t)
    ensures RecipesOk(DeleteUser(t, u))
  {
    var t' := DeleteUser(t, u);
    forall id | id in t'.recipes ensures id < t'.nextRecipe && RecipeOk(t'.recipes[id], t'.users, t'.tags) {
      assert RecipeOk(t.recipes[id], t.users, t.tags);
    }
  }

  lemma DeleteUserKeepsLines(t: Tables, u: UserId)
    requires LinesOk(t)
    ensures LinesOk(DeleteUser(t, u))
  {
    var gone := AuthoredBy(t, u);
    var t' := DeleteUser(t, u);
    FilterDistinctBy(t.lines, (l: Line) => l.recipe !in gone, LineKey);
    forall l | l in t'.lines ensures LineOk(l, t'.recipes, t'.ingredients) {
      assert LineOk(l, t.recipes, t.ingredients);
    }
  }

  lemma FilterPairsOk(rows: seq<Pair>, users: map<UserId, User>, recipes: map<RecipeId, Recipe>, u: UserId, gone: set<RecipeId>)
    requires PairsOk(rows, users, recipes)
    ensures PairsOk(Filter(rows, (p: Pair) => p.user != u && p.recipe !in gone), users - {u}, recipes - gone)
  {
    FilterDistinct(rows, (p: Pair) => p.user != u && p.recipe !in gone);
  }

  // ----- What a cascade removes -----

  /** After deleting a user nothing refers to them or to a recipe they wrote,
      and every row that referred to neither is still there. */
  lemma DeleteUserCascade(t: Tables, u: UserId)
    ensures var t' := DeleteUser(t, u);
      && u !in t'.users
      && (forall id :: id in t'.recipes ==> t'.recipes[id].author != u)
      && (forall l :: l in t'.lines ==> l.recipe in t'.recipes || l.recipe !in t.recipes)
      && (forall p :: p in t'.favorites ==> p.user != u && p.recipe !in AuthoredBy(t, u))
      && (forall p :: p in t'.cart ==> p.user != u && p.recipe !in AuthoredBy(t, u))
      && (forall f :: f in t'.follows ==> f.user != u && f.author != u)
      && (forall f :: f in t.follows && f.user != u && f.author != u ==> f in t'.follows)
      && (forall p :: p in t.favorites && p.user != u && p.recipe !in AuthoredBy(t, u) ==> p in t'.favorites)
      && (forall p :: p in t.cart && p.user != u && p.recipe !in AuthoredBy(t, u) ==> p in t'.cart)
      && (forall l :: l in t.lines && l.recipe !in AuthoredBy(t, u) ==> l in t'.lines)
      && (forall id :: id in t.recipes && t.recipes[id].author != u ==> id in t'.recipes && t'.recipes[id] == t.recipes[id])
      && (forall v :: v in t.users && v != u ==> v in t'.users && t'.users[v] == t.users[v])
  {
  }

  // ----- Which lines a recipe has after a write -----

  /** The lines of recipe id (`recipe.recipe_ingredient.all()`). */
  function LinesOf(t: Tables, id: RecipeId): seq<Line> {
    Filter(t.lines, (l: Line) => l.recipe == id)
  }

  /** After an update the recipe's lines are exactly the new ones, no old line
      of it survives, and every other recipe keeps its lines. */
  lemma UpdateRecipeLines(t: Tables, id: RecipeId, r: Recipe, newLines: seq<Line>)
    requires forall l :: l in newLines ==> l.recipe == id
    ensures LinesOf(UpdateRecipe(t, id, r, newLines), id) == newLines
    ensures forall other :: other != id ==> LinesOf(UpdateRecipe(t, id, r, newLines), other) == LinesOf(t, other)
  {
    var kept := Filter(t.lines, (l: Line) => l.recipe != id);
    FilterConcat(kept, newLines, (l: Line) => l.recipe == id);
    FilterNone(kept, (l: Line) => l.recipe == id);
    FilterAll(newLines, (l: Line) => l.recipe == id);
    forall other | other != id
      ensures LinesOf(UpdateRecipe(t, id, r, newLines), other) == LinesOf(t, other)
    {
      FilterConcat(kept, newLines, (l: Line) => l.recipe == other);
      FilterNone(newLines, (l: Line) => l.recipe == other);
      var notId, isOther := (l: Line) => l.recipe != id, (l: Line) => l.recipe == other;
      FilterFilter(t.lines, notId, isOther, isOther);
    }
  }

  /** A new recipe's lines are exactly the given ones and every other recipe
      keeps its lines. */
  lemma CreateRecipeLines(t: Tables, r: Recipe, newLines: seq<Line>, lower: string -> string, isWordChar: char -> bool)
    requires Consistent(t, lower, isWordChar)
    requires forall l :: l in newLines ==> l.recipe == t.nextRecipe
    ensures LinesOf(CreateRecipe(t, r, newLines), t.nextRecipe) == newLines
    ensures forall other :: other != t.nextRecipe ==> LinesOf(CreateRecipe(t, r, newLines), other) == LinesOf(t, other)
  {
    var id := t.nextRecipe;
    forall l | l in t.lines ensures l.recipe != id {
      assert LineOk(l, t.recipes, t.ingredients);
    }
    FilterConcat(t.lines, newLines, (l: Line) => l.recipe == id);
    FilterNone(t.lines, (l: Line) => l.recipe == id);
    FilterAll(newLines, (l: Line) => l.recipe == id);
    forall other | other != id
      ensures LinesOf(CreateRecipe(t, r, newLines), other) == LinesOf(t, other)
    {
      FilterConcat(t.lines, newLines, (l: Line) => l.recipe == other);
      FilterNone(newLines, (l: Line) => l.recipe == other);
    }
  }

  /** Removing a pair that is present from rows without repeats removes
      exactly one row and keeps every other. */
  lemma RemoveExactlyOne<T(!new)>(rows: seq<T>, p: T)
    requires Distinct(rows) && p in rows
    ensures |Filter(rows, (q: T) => q != p)| == |rows| - 1
    ensures forall q :: q in Filter(rows, (q: T) => q != p) <==> q in rows && q != p
  {
    var kept := Filter(rows, (q: T) => q != p);
    FilterDistinct(rows, (q: T) => q != p);
    DistinctIffCardinality(rows);
    DistinctIffCardinality(kept);
    assert Elems(kept) == Elems(rows) - {p};
  }
}
