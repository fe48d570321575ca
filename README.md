# foodgram backend core, modelled in Dafny

foodgram is a recipe-sharing backend. Users publish recipes made of ingredient
lines and tags. They mark recipes as favourites, put recipes in a shopping cart,
subscribe to other authors and download a shopping list that sums the
ingredients of every recipe in their cart.

This project models the logical core of that backend over an in-memory store
and proves properties of it:

- `Models` (models.dfy): the tables of `recipes/models.py` and `users/models.py`.
  - `Tables` is one value holding every table.
  - `Consistent` gathers every constraint the database keeps: amounts and
    cooking times of at least 1 that fit a small integer; unique ingredient
    lines, favourites, cart rows and follows; no self-follow; unique usernames
    and e-mails; every username valid; every foreign key resolved.
  - Each write is a pure transition: add or remove a pair or a follow, add a
    user, create, update or delete a recipe, and delete a user with its
    cascades. A lemma per transition shows that it keeps `Consistent`.
- `Store` (store.dfy): the class `Database`, with one field per table. Its
  methods are the writes of the serializers and views, step by step:
  - recipe create and update under `transaction.atomic`, with rollback on an
    unknown ingredient;
  - the favourite and cart toggles;
  - subscribe and unsubscribe, with the `Follow.save` guard;
  - the two deletes.

  Each method's contract ties its new state to the pure transition and keeps
  `Valid()`.
- `ShoppingList` (shopping_list.dfy): `create_shopping_cart_file`. It groups the
  cart's lines by (name, unit) and sums them, then renders the text with the
  loop of the source.
- `RecipeSerializers` (recipe_serializers.dfy): `RecipeSerializer.validate` and
  `add_ingredients` (loops), the favourite duplicate check, `get_recipes` /
  `get_recipes_count`, and the base64 image header split.
- `UserSerializers` (user_serializers.dfy): the subscription checks,
  `is_subscribed` and the subscription list.
- `RecipeViews` (recipe_views.dfy): the per-viewer `is_favorited` /
  `is_in_shopping_cart` annotations, `get_serializer_class`, and the methods
  the viewset accepts.
- `Filters` (filters.dfy): `RecipeFilter` (tags, author and the two boolean
  filters through `filter_boolean_field`) and the ranked name search of
  `IngredientFilter`.
- `UsernameValidator` (username_validator.dfy): `validate_username`.
- `Permissions` (permissions.dfy): `IsAdminAuthorOrReadOnly`.
- `Common` and `Seqs` are the shared types and sequence and string helpers
  (filtering, distinctness, Python's `split`, `join`, `startswith` and `in`).

Python's Unicode `str.lower`, the regex class `\w` and the database's case
folding are not modelled in Dafny. They are parameters (`lower`, `isWordChar`,
`fold`). The database sequences, the clock, the HTTP layer and file storage
are outside the model.

## Model

| member | source | states |
|---|---|---|
| UsernameValidator.ValidateUsername | backend_foodgram/users/validators.py:6-17 | a username is accepted iff its lower-cased form is not "me" and every character is in `[\w.@+-` (the literal `[` included); an accepted name is returned unchanged; "me" in any case is refused with its own message first; otherwise the message lists the offending characters |
| UsernameValidator.InvalidSymbolsInOrder | backend_foodgram/users/validators.py:11-16 | the offending characters of a concatenation are those of each part, in order of occurrence |
| UsernameValidator.InvalidSymbolsCount | backend_foodgram/users/validators.py:11-16 | each offending character is listed exactly as often as it occurs in the name |
| Models.Consistent | backend_foodgram/recipes/models.py:29-194 | the database's constraints: field validators, unique fields and unique constraints, foreign keys and the Follow guard (the constraints of backend_foodgram/users/models.py included); when they hold, the next user and recipe keys are free |
| Models.AddPairConsistent | backend_foodgram/recipes/models.py:142-194 | adding a new favourite or cart pair of an existing user and recipe keeps every constraint, including per-(user, recipe) uniqueness |
| Models.RemovePairConsistent | backend_foodgram/api/views/recipes.py:37 | deleting a favourite or cart pair keeps every constraint |
| Models.AddFollowConsistent | backend_foodgram/users/models.py:58-88 | a new follow between two distinct existing users keeps every constraint: follows stay unique and none is a self-follow |
| Models.RemoveFollowConsistent | backend_foodgram/api/views/users.py:32-35 | deleting a follow keeps every constraint |
| Models.AddUserConsistent | backend_foodgram/users/models.py:8-52 | a user whose username passed validate_username and whose username and e-mail are new keeps users unique and valid |
| Models.CreateRecipeConsistent | backend_foodgram/api/serializers/recipes.py:221-229 | a valid recipe stored under the next key, with lines that are valid, distinct per ingredient and name existing ingredients, keeps every constraint |
| Models.UpdateRecipeConsistent | backend_foodgram/api/serializers/recipes.py:231-241 | replacing an existing recipe's fields and all of its lines with valid ones keeps every constraint |
| Models.DeleteRecipeConsistent | backend_foodgram/recipes/models.py:109-194 | deleting a recipe with its cascaded lines, favourites and cart rows keeps every constraint (no row refers to a missing recipe) |
| Models.DeleteUserConsistent | backend_foodgram/recipes/models.py:58-65 | deleting a user with every cascade keeps every constraint |
| Models.DeleteUserCascade | backend_foodgram/users/models.py:58-70 | after deleting a user, no recipe, line, favourite, cart row or follow refers to the user or to a recipe the user wrote; every other user, recipe, line, favourite, cart row and follow is kept unchanged |
| Models.UpdateRecipeLines | backend_foodgram/api/serializers/recipes.py:237-239 | after an update the recipe's lines are exactly the new ones, no old line survives, and every other recipe's lines are unchanged |
| Models.CreateRecipeLines | backend_foodgram/api/serializers/recipes.py:226-228 | a created recipe's lines are exactly the given ones, and every other recipe's lines are unchanged |
| Models.RemoveExactlyOne | backend_foodgram/api/views/recipes.py:37 | deleting a present row from a relation without repeats removes exactly that row: one row fewer, all others kept |
| ShoppingList.Aggregate | backend_foodgram/api/utils.py:10-14 | the `.values(name, unit).annotate(Sum('amount'))` grouping: one row per (name, unit), and exactly the (name, unit) pairs of the lines |
| ShoppingList.AggregateSpec | backend_foodgram/api/utils.py:10-14 | the grouping has one row per (name, unit), loses and adds no key, each key's total is preserved, the grand total is preserved, and no lines give no rows |
| ShoppingList.AggregateMembership | backend_foodgram/api/utils.py:10-14 | a row is in the result iff its (name, unit) occurs among the lines and its amount is the sum of those lines' amounts |
| ShoppingList.AggregateCount | backend_foodgram/api/utils.py:10-14 | the number of rows equals the number of distinct (name, unit) pairs |
| ShoppingList.AggregateOrderIndependent | backend_foodgram/api/utils.py:10-14 | the same lines in any order give the same set of rows |
| ShoppingList.SameNameAndUnitMerge | backend_foodgram/api/utils.py:12-14 | for any lines, two of them with the same name and unit end up in one row whose amount is their two amounts plus those of every other line with that name and unit; any row with that name and unit is that row |
| ShoppingList.ShoppingRowsTotal | backend_foodgram/api/utils.py:10-14 | the rows' amounts add up to the sum of the amounts of every line of every recipe in the user's cart |
| ShoppingList.ShoppingRowsOnlyOwnCart | backend_foodgram/api/utils.py:10-11 | the rows depend only on the user's own cart pairs; other users' carts do not contribute |
| ShoppingList.NatToStringValue | backend_foodgram/api/utils.py:21 | the rendered amount is a string of digits whose value is the amount |
| ShoppingList.ShoppingTextLayout | backend_foodgram/api/utils.py:16-23 | the text is the header followed by one "\n\n{name} - {amount}, {unit}" block per row, and just the header when there are no rows |
| ShoppingList.EmptyCart | backend_foodgram/api/utils.py:10-23 | a user with an empty cart gets no rows and the header alone |
| ShoppingList.CreateShoppingCartFile | backend_foodgram/api/utils.py:16-23 | the loop appending one entry per row, joined by "\n", produces the header followed by each row's block |
| RecipeSerializers.Validate | backend_foodgram/api/serializers/recipes.py:191-203 | a request without `ingredients` (a partial update) raises TypeError, since the loop runs over None; otherwise passes iff every amount is positive and no ingredient id repeats; an amount below 1 is reported with its message first; otherwise a repeated id is reported with its message |
| RecipeSerializers.AddIngredients | backend_foodgram/api/serializers/recipes.py:205-219 | fails with NotFound iff some id names no ingredient; otherwise gives one line per entry, in order, with the entry's amount |
| RecipeSerializers.NewLinesMembership | backend_foodgram/api/serializers/recipes.py:207-218 | there are exactly as many lines as entries, and each line is the recipe's line for some entry's id and amount |
| RecipeSerializers.NewLinesFresh | backend_foodgram/api/serializers/recipes.py:205-219 | entries that passed the field checks and validate, all naming existing ingredients, give lines that meet the line constraints |
| RecipeSerializers.ValidateFavorite | backend_foodgram/api/serializers/recipes.py:254-260 | refused iff the pair already is a favourite, with its message |
| RecipeSerializers.FavoriteTwice | backend_foodgram/api/serializers/recipes.py:254-260 | adding a favourite and then asking again is refused |
| RecipeSerializers.GetRecipes | backend_foodgram/api/serializers/recipes.py:73-85 | no limit gives all recipes; a limit n of 0 or more gives the first min(n, count) of them; a negative limit raises |
| RecipeSerializers.GetRecipesCount | backend_foodgram/api/serializers/recipes.py:86-87 | the author's number of recipes: at most the number of recipes, and 0 exactly when the author wrote none |
| RecipeSerializers.RecipesCountIgnoresLimit | backend_foodgram/api/serializers/recipes.py:73-88 | the count is the number of the author's recipes whatever the limit; the limited list is never longer; a limit of at least the count gives every recipe |
| RecipeSerializers.ExtensionSpec | backend_foodgram/api/serializers/recipes.py:22 | the extension contains no "/" and is the header's text after its last "/", or the whole header when it has none |
| RecipeSerializers.ToInternalValue | backend_foodgram/api/serializers/recipes.py:19-25 | input that is not a string starting with "data:image" passes unchanged; otherwise it is a ValueError exactly when splitting at ";base64," does not give two pieces, and else a file whose payload follows the marker and whose name is "photo." + the extension of the header before it |
| RecipeSerializers.ImageHeaderRoundTrip | backend_foodgram/api/serializers/recipes.py:19-23 | header + ";base64," + payload, with no other marker, gives back exactly that payload and "photo." + the header's extension |
| RecipeSerializers.ImageWithoutMarker | backend_foodgram/api/serializers/recipes.py:21 | a "data:image" string without ";base64," is refused with ValueError |
| RecipeSerializers.ImageWithSeveralMarkers | backend_foodgram/api/serializers/recipes.py:21 | a "data:image" string with two or more ";base64," is refused with ValueError, since the split has more than two pieces to unpack |
| UserSerializers.IsSubscribed | backend_foodgram/api/serializers/users.py:39-44 | `is_subscribed` is false for an anonymous viewer, and true only when a Follow row from the viewer to the user exists |
| UserSerializers.Subscriptions | backend_foodgram/api/views/users.py:46-47 | the subscription list holds existing users only, exactly those the user's `is_subscribed` flag is true for |
| UserSerializers.ValidateSubscription | backend_foodgram/api/serializers/users.py:47-66 | passes iff the follow is new and not to oneself; an existing follow is reported first, by the unique-together validator's message, then a self-subscription by validate's message |
| UserSerializers.AcceptedSubscriptionConsistent | backend_foodgram/users/models.py:72-88 | a subscription the checks accept keeps every constraint when saved |
| UserSerializers.IsSubscribedIffListed | backend_foodgram/api/serializers/users.py:39-44 | is_subscribed is false for an anonymous viewer; for a user it is true iff the author is in that user's subscription list |
| UserSerializers.SubscribeEffect | backend_foodgram/api/views/users.py:12-20 | after subscribing, the flag is on and the list gains exactly the author; every other flag is unchanged |
| UserSerializers.UnsubscribeEffect | backend_foodgram/api/views/users.py:22-36 | after unsubscribing, the flag is off and the list loses exactly the author; every other flag is unchanged |
| Permissions.HasPermission | backend_foodgram/api/permissions.py:6-8 | a safe method is always allowed; any other method is allowed iff the requester is authenticated |
| Permissions.HasObjectPermission | backend_foodgram/api/permissions.py:10-14 | allowed for a safe method, a superuser, a staff member or the author; refused for an unsafe method by an anonymous requester or by anyone else |
| Permissions.ObjectPermissionImpliesPermission | backend_foodgram/api/permissions.py:6-14 | whoever passes the object check also passes the request check |
| Permissions.RecipeWriters | backend_foodgram/api/permissions.py:10-14 | an unsafe request on a recipe is allowed iff the viewer is that recipe's author, staff or a superuser |
| RecipeViews.Annotate | backend_foodgram/api/views/recipes.py:79-99 | the listing keeps every recipe, in order, one entry each |
| RecipeViews.AnnotationMeaning | backend_foodgram/api/views/recipes.py:83-97 | an anonymous viewer gets no flags; an authenticated viewer gets both flags, true exactly when it has the recipe as a favourite or in its cart |
| RecipeViews.AnnotationPerViewer | backend_foodgram/api/views/recipes.py:83-97 | a viewer's flags depend only on that viewer's own favourite and cart rows |
| RecipeViews.AnnotationAfterAdd | backend_foodgram/api/views/recipes.py:106-150 | after a user adds a recipe to a relation, that user's flag on that recipe is true, and every other flag is unchanged |
| RecipeViews.AnnotationAfterRemove | backend_foodgram/api/views/recipes.py:122-164 | after a user removes a recipe from a relation, that user's flag on that recipe is false, and every other flag is unchanged |
| RecipeViews.SerializerFor | backend_foodgram/api/views/recipes.py:101-104 | the full read serializer is chosen exactly for the actions a GET on the viewset's routes reaches (list and retrieve), the write serializer for every other action |
| RecipeViews.ReadSerializerIffGet | backend_foodgram/api/views/recipes.py:72-104 | on the viewset's own routes the full read serializer is used exactly for GET; PUT reaches no action |
| Filters.MetaFieldsAsWrittenRejected | backend_foodgram/api/filters.py:23-25 | as written, Meta.fields holds exactly one undefined name, "is_in_shopping_list" |
| Filters.MetaFieldsAccepted | backend_foodgram/api/filters.py:23-25 | the corrected Meta.fields has no undefined name and names exactly the declared filters |
| Filters.ResolveLookup | backend_foodgram/api/filters.py:18-21 | a lookup that does not resolve is a FieldError |
| Filters.FilterBooleanFieldWith | backend_foodgram/api/filters.py:27-31 | a false value or an anonymous viewer leaves the recipes unchanged; any result is a subset of the input |
| Filters.FavoriteLookupAsWrittenFails | backend_foodgram/api/filters.py:18-19 | as written, the favourites filter fails with FieldError for every state and user: "favorite" names nothing on Recipe |
| Filters.BoundMethodsAsWrittenFail | backend_foodgram/api/filters.py:10-17 | as written, neither method the boolean filters name exists, so a given value fails the method lookup |
| Filters.BooleanFilterIsFilter | backend_foodgram/api/filters.py:27-31 | corrected, each boolean filter never fails and keeps exactly the input recipes the viewer has in the named relation when the value is true and the viewer is authenticated, and every recipe otherwise |
| Filters.ValidateTags | backend_foodgram/api/filters.py:9 | tag values pass iff each is the slug of a tag some recipe carries; otherwise the first bad value is reported |
| Filters.FilterAuthorIsFilter | backend_foodgram/api/filters.py:11-14 | the author filter keeps exactly the recipes whose author id equals the value, and every recipe when the value is absent |
| Filters.FilterTagsIsFilter | backend_foodgram/api/filters.py:9 | the tags filter keeps exactly the recipes with at least one requested slug, and every recipe when no value is given |
| Filters.ApplyRecipeFilter | backend_foodgram/api/filters.py:7-31 | the recipe filter fails, with a validation error, exactly when a tag value is not a choice; otherwise it returns some of the input recipes and never more of them |
| Filters.ApplyRecipeFilterSpec | backend_foodgram/api/filters.py:7-31 | the recipe filter fails exactly on a tag value that is not a choice; otherwise it keeps, in input order, exactly the recipes every given filter accepts |
| Filters.AnonymousIgnoresFlags | backend_foodgram/api/filters.py:28 | for an anonymous viewer the two boolean filters have no effect |
| Filters.FlagFilterAgreesWithAnnotation | backend_foodgram/api/filters.py:27-31 | `is_favorited=1` (or `is_in_shopping_cart=1`) alone keeps a recipe iff the listing shows that flag true for the viewer |
| Filters.ApplyRecipeFilterDistinct | backend_foodgram/api/filters.py:9 | the filtered list keeps distinct recipes distinct |
| Filters.FilterName | backend_foodgram/api/filters.py:42-50 | the name search returns only input ingredients and, for a non-empty query, only those whose folded name contains the folded query |
| Filters.MatchedIsContains | backend_foodgram/api/filters.py:43-45 | "starts with or contains" keeps the same names as "contains" |
| Filters.StartersFirst | backend_foodgram/api/filters.py:45-50 | in the ordered result every starting name precedes every other |
| Filters.FilterNameSpec | backend_foodgram/api/filters.py:42-50 | an empty query changes nothing; otherwise the result holds exactly the ingredients whose name contains the query after folding, each as often as in the input, with every name that starts with the query first |
| Store.ApplyPatch | backend_foodgram/api/serializers/recipes.py:232-238 | the patched recipe keeps its author, takes the new tag set, and takes each sent field while keeping each field that was not sent |
| Store.ApplyPatchOk | backend_foodgram/api/serializers/recipes.py:232-238 | a patch that passed the field checks keeps the recipe valid |
| Store.Database.Restore | backend_foodgram/api/serializers/recipes.py:221-231 | the rollback of an atomic block puts every table back |
| Store.Database.AddUser | backend_foodgram/users/models.py:8-52 | a valid new user is stored under the next key and the store stays valid |
| Store.Database.CreateRecipe | backend_foodgram/api/serializers/recipes.py:221-229 | fails with NotFound iff some ingredient is unknown, and then nothing changes; otherwise the new recipe, by the author, has exactly the given tags and lines, and the store stays valid |
| Store.Database.UpdateRecipe | backend_foodgram/api/serializers/recipes.py:231-241 | an unknown recipe is NotFound; a patch without tags raises KeyError; an unknown ingredient is NotFound (get_object_or_404); on any failure nothing changes; on success the recipe has the patched fields, the new tags and exactly the new lines, and the store stays valid |
| Store.Database.WriteUpdate | backend_foodgram/api/serializers/recipes.py:233-241 | the writes of an update: with every ingredient known, the recipe has the patched fields and new tags and exactly the new lines, and the store stays valid; otherwise NotFound and every table rolled back |
| Store.Database.DeleteRecipe | backend_foodgram/recipes/models.py:109-194 | an unknown recipe is NotFound with nothing changed; otherwise the recipe and its cascaded rows go and the store stays valid |
| Store.Database.DeleteUser | backend_foodgram/recipes/models.py:58-65 | an unknown user is NotFound with nothing changed; otherwise the user and every cascaded row go and the store stays valid |
| Store.Database.AddToRelation | backend_foodgram/api/views/recipes.py:21-29 | an unknown recipe is NotFound; an existing favourite is refused with the favourite message, and an existing cart row breaks the unique constraint (IntegrityError); on failure nothing changes; otherwise exactly the pair is added |
| Store.Database.RemoveFromRelation | backend_foodgram/api/views/recipes.py:31-38 | an unknown recipe is NotFound; a missing pair is refused with the relation's message; on failure nothing changes; otherwise exactly the pair is removed |
| Store.Database.SaveFollow | backend_foodgram/users/models.py:85-88 | a self-follow is refused and nothing is written; an existing follow breaks the unique constraint; otherwise exactly the follow is added |
| Store.Database.Subscribe | backend_foodgram/api/views/users.py:12-20 | an unknown author is NotFound; otherwise the outcome is the subscription checks' outcome; on failure nothing changes; otherwise exactly the follow is added |
| Store.Database.Unsubscribe | backend_foodgram/api/views/users.py:22-36 | an unknown author is NotFound; a missing follow is refused with its message; on failure nothing changes; otherwise exactly the follow is removed |
| Store.Database.DownloadShoppingCart | backend_foodgram/api/views/recipes.py:166-176 | the downloaded text is the header followed by the blocks of the user's shopping rows |

## Left out

- HTTP: status codes, `Response`, `FileResponse`, the byte encoding of the file and its Content-Disposition header. Outcomes are the `Outcome`/`Result` types of `Common`.
- The database engine: queries are sequence and map operations; the primary-key sequences are plain counters.
- Sequence gaps: a rolled-back create puts the recipe counter back, while a real database sequence would skip the number.
- Base64 decoding, `ContentFile` and image validation and storage: only the header split of `Base64ImageField` is modelled.
- Ordering: recipe listings by `pub_date` descending (an `auto_now` clock) and users by id. Listings keep the order they are given in.
- ShoppingList.Aggregate: the database returns the grouped rows in an unspecified order; the model uses the order in which each (name, unit) first appears. AggregateOrderIndependent shows the set of rows does not depend on it.
- Filters.FilterName: names within each group (starting, only containing) keep their input order, which the database leaves unspecified.
- Filters.ResolveLookup: only the two `<relation>__user` lookups are modelled; any other path is a FieldError, which is what Django raises for the path in FILTER_MAP.
- Filters.ApplyRecipeFilter: parsing of the query string (a non-numeric `author`, and what `BooleanFilter` reads as true or false) happens before the model; parameters arrive parsed.
- RecipeSerializers.GetRecipes: `int(recipes_limit)` on a non-numeric value (a ValueError) is not modelled; the limit arrives as an integer, and an empty parameter counts as absent, as `if recipes_limit:` treats it.
- Store.Database.AddUser: registration itself belongs to djoser. The method requires an already validated user with a new username and e-mail, and does not model the error path for a duplicate.
- Store.Database.CreateRecipe and Store.Database.UpdateRecipe: DRF's field validation and `validate` run before `create`/`update`, so both require data that passed them, and their error paths cover only what happens inside them. A partial update without `ingredients` never reaches `update`: `RecipeSerializers.Validate` raises TypeError first.
- Store.Database.AddToRelation: the model follows Django REST framework before 3.15, which builds no validator from a model's `UniqueConstraint`. So `FavoriteSerializer.validate` refuses a repeated favourite, and a repeated cart row reaches `save()`, where the database raises IntegrityError. `ShoppingCartSerializer.validate` is nested inside `Meta` and never runs. From 3.15 on, both repeats would get DRF's unique-set message instead; that behaviour is not modelled.
- Pagination, token authentication, URL routing (`api/urls.py`) and djoser's user views.
- `FullRecipeInfoSerializer.get_queryset` is never called, so it is not modelled.
- The recipe views import `IsAuthorOrReadOnly`, while `api/permissions.py` defines `IsAdminAuthorOrReadOnly`. The model gives the viewset the permission that is defined.
- Serializer field lists and read-only JSON shaping (`TagSerializer`, `IngredientSerializer`, `ShortRecipeInfoSerializer` and the like).
- The admin modules and the unused `tags` and `ingredients` apps.
- Unicode `str.lower`, the regex class `\w` and the database's case folding for `istartswith`/`icontains`: they are parameters of the model.

## Findings

| source | as written | input that shows it | evidently intended | confidence | as-written member | corrected member |
|---|---|---|---|---|---|---|
| backend_foodgram/api/filters.py:25 | `Meta.fields` lists `'is_in_shopping_list'`, which is neither a Recipe field nor a declared filter, so creating the FilterSet class raises TypeError | importing the module that defines `RecipeFilter` | `'is_in_shopping_cart'`, the declared filter | high, not executed | Filters.MetaFieldsAsWrittenRejected | Filters.MetaFieldsAccepted |
| backend_foodgram/api/filters.py:10-17 | the boolean filters name `filter_is_favorited` and `filter_is_in_shopping_list`; neither method exists, so the method lookup fails when a value is given | `GET /recipes/?is_favorited=1` | both filters call `filter_boolean_field`, which is keyed by the filter's name | high, not executed | Filters.BoundMethodsAsWrittenFail | Filters.BooleanFilterIsFilter |
| backend_foodgram/api/filters.py:19 | `FILTER_MAP['is_favorited']` is `'favorite__user'`, but Favorite's reverse relation on Recipe is named `favorites`, so the lookup raises FieldError | `GET /recipes/?is_favorited=1` from an authenticated user | `'favorites__user'` | high, not executed | Filters.FavoriteLookupAsWrittenFails | Filters.BooleanFilterIsFilter |
